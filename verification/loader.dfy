/** Reading the catalogue file in `Library.__enter__`: a fixed header line,
    then one comma-separated book per line, each stored under the next id. */
module Loader {
  import opened Wrappers
  import opened Text
  import opened Books
  import opened Catalogue

  /** The exact first line the file must start with, newline included. */
  const HeaderLine: string := "Назва,Автор,Рік видання,Жанр,Кількість примірників\n"

  /** The comma-separated fields of a data line, once the whole line has
      been stripped. */
  function RowFields(line: string): (r: seq<string>)
    ensures |r| >= 1
    ensures forall i :: 0 <= i < |r| ==> ',' !in r[i]
    ensures Join(r, ",") == Strip(line)
  {
    Split(Strip(line), ',')
  }

  /** One data line: exactly five fields, the fifth an integer literal. A
      line that does not split into five fields fails as the unpacking
      would, and a fifth field `int()` rejects fails as `int()` would. */
  function ParseRow(line: string): (r: Result<Book, Error>)
    ensures |RowFields(line)| != 5 ==> r == Failure(WrongFieldCount(|RowFields(line)|))
    ensures |RowFields(line)| == 5 && !IsIntLiteral(IntText(RowFields(line)[4])) ==>
      r == Failure(NotAnInteger(RowFields(line)[4]))
    ensures r.Success? <==> |RowFields(line)| == 5 && IsIntLiteral(IntText(RowFields(line)[4]))
    ensures r.Success? ==> r.value.amount == ParseInt(RowFields(line)[4]).value
  {
    var fields := RowFields(line);
    if |fields| != 5 then Failure(WrongFieldCount(|fields|))
    else
      match ParseInt(fields[4])
      case None => Failure(NotAnInteger(fields[4]))
      case Some(n) => Success(Book(fields[0], fields[1], fields[2], fields[3], n))
  }

  /** The fields of the sample row below, joined back with commas. */
  lemma {:induction false} SampleRowJoin()
    ensures Join(["t", "a", "y", "g", "\U{A0}\U{1C}5"], ",") == "t,a,y,g,\U{A0}\U{1C}5"
  {
    var amount := "\U{A0}\U{1C}5";
    var j4 := Join([amount], ",");
    assert j4 == amount;
    var j3 := Join(["g", amount], ",");
    assert ["g", amount][1..] == [amount];
    assert j3 == "g," + amount;
    var j2 := Join(["y", "g", amount], ",");
    assert ["y", "g", amount][1..] == ["g", amount];
    assert j2 == "y," + j3;
    var j1 := Join(["a", "y", "g", amount], ",");
    assert ["a", "y", "g", amount][1..] == ["y", "g", amount];
    assert j1 == "a," + j2;
    assert ["t", "a", "y", "g", amount][1..] == ["a", "y", "g", amount];
    assert Join(["t", "a", "y", "g", amount], ",") == "t," + j1;
  }

  /** Stripping the sample row below removes only its newline. */
  lemma {:induction false} SampleRowStrip()
    ensures Strip("t,a,y,g,\U{A0}\U{1C}5\n") == "t,a,y,g,\U{A0}\U{1C}5"
  {
    var row := "t,a,y,g,\U{A0}\U{1C}5";
    assert !IsSpace(row[0]) && !IsSpace(row[|row| - 1]);
    StripTrailingSpace(PythonSpaces, row, "\n");
    assert row + "\n" == "t,a,y,g,\U{A0}\U{1C}5\n";
  }

  /** The stripped and split fields of the sample row below. */
  lemma {:induction false} SampleRowFields()
    ensures RowFields("t,a,y,g,\U{A0}\U{1C}5\n") == ["t", "a", "y", "g", "\U{A0}\U{1C}5"]
  {
    SampleRowStrip();
    SampleRowJoin();
    SplitJoin(["t", "a", "y", "g", "\U{A0}\U{1C}5"], ',');
  }

  /** A row whose amount column starts with a no-break space and then an
      information separator fails: `strip()` leaves the column as it is,
      and `int()` skips the no-break space but not the separator. */
  lemma {:induction false} ParseRowRejectsSeparatorAmount()
    ensures ParseRow("t,a,y,g,\U{A0}\U{1C}5\n") == Failure(NotAnInteger("\U{A0}\U{1C}5"))
  {
    SampleRowFields();
    IntKeepsSeparatorAfterUnicode();
  }

  /** The text columns of a parsed row hold no comma, and rejoining them
      with the amount's text gives back the stripped line. */
  lemma {:induction false} ParseRowColumns(line: string)
    requires ParseRow(line).Success?
    ensures forall c :: ',' !in Field(ParseRow(line).value, c)
    ensures var b := ParseRow(line).value;
      Strip(line) == Join([b.title, b.author, b.year, b.ganre, RowFields(line)[4]], ",")
  {
    var fields := RowFields(line);
    var b := ParseRow(line).value;
    assert b == Book(fields[0], fields[1], fields[2], fields[3], b.amount);
    assert [b.title, b.author, b.year, b.ganre, fields[4]] == fields;
    forall c
      ensures ',' !in Field(b, c)
    {
      match c
      case Title => assert Field(b, c) == fields[0];
      case Author => assert Field(b, c) == fields[1];
      case Year => assert Field(b, c) == fields[2];
      case Ganre => assert Field(b, c) == fields[3];
    }
  }

  /** `i` is the first of `rows` that does not parse. */
  predicate IsFirstBadRow(rows: seq<string>, i: int) {
    && 0 <= i < |rows|
    && ParseRow(rows[i]).Failure?
    && forall j :: 0 <= j < i ==> ParseRow(rows[j]).Success?
  }

  /** The loop over the data lines: every row is stored, in order, under
      consecutive ids starting at `next`; the first row that does not parse
      aborts the whole load with its error. */
  function LoadRows(rows: seq<string>, next: nat): (r: Result<seq<Record>, Error>)
    ensures r.Success? <==> forall i :: 0 <= i < |rows| ==> ParseRow(rows[i]).Success?
    ensures r.Success? ==> |r.value| == |rows|
    ensures r.Success? ==> forall i :: 0 <= i < |rows| ==>
      r.value[i] == Record(next + i, ParseRow(rows[i]).value)
    decreases |rows|
  {
    if |rows| == 0 then Success([])
    else
      var b :- ParseRow(rows[0]);
      var rest :- LoadRows(rows[1..], next + 1);
      LoadRowsCons(rows, next, b, rest);
      Success([Record(next, b)] + rest)
  }

  /** One step of the loop: a parsed first row in front of the loaded rest
      gives every row, parsed, under consecutive ids. */
  lemma {:induction false} LoadRowsCons(rows: seq<string>, next: nat, b: Book, rest: seq<Record>)
    requires |rows| > 0 && ParseRow(rows[0]) == Success(b)
    requires |rest| == |rows| - 1
    requires forall i :: 0 <= i < |rows[1..]| ==>
      ParseRow(rows[1..][i]).Success? && rest[i] == Record(next + 1 + i, ParseRow(rows[1..][i]).value)
    ensures forall i :: 0 <= i < |rows| ==>
      ParseRow(rows[i]).Success? && ([Record(next, b)] + rest)[i] == Record(next + i, ParseRow(rows[i]).value)
  {
    forall i | 0 < i < |rows|
      ensures ParseRow(rows[i]).Success? && ([Record(next, b)] + rest)[i] == Record(next + i, ParseRow(rows[i]).value)
    {
      assert rows[1..][i - 1] == rows[i];
    }
  }

  /** The error a failed load of the rows reports is that of the first row
      that does not parse. */
  lemma {:induction false} LoadRowsFirstError(rows: seq<string>, next: nat, i: nat)
    requires IsFirstBadRow(rows, i)
    ensures LoadRows(rows, next) == Failure(ParseRow(rows[i]).error)
    decreases i
  {
    if i > 0 {
      assert IsFirstBadRow(rows[1..], i - 1);
      LoadRowsFirstError(rows[1..], next + 1, i - 1);
    }
  }

  /** `Library.__enter__`: the header must match exactly (an empty file has
      no header), then the rows are stored under ids `counter`,
      `counter + 1`, ... and the counter ends past the last of them. */
  function Load(lines: seq<string>, counter: nat): (r: Result<Store, Error>)
    ensures |lines| == 0 || lines[0] != HeaderLine ==> r == Failure(InvalidFileFormat)
    ensures r.Success? <==>
      && |lines| > 0 && lines[0] == HeaderLine
      && forall i :: 1 <= i < |lines| ==> ParseRow(lines[i]).Success?
    ensures r.Success? ==> Valid(r.value)
    ensures r.Success? ==> |r.value.records| == |lines| - 1 && r.value.nextId == counter + |lines| - 1
    ensures r.Success? ==> forall i :: 0 <= i < |r.value.records| ==>
      && r.value.records[i].id == counter + i
      && ParseRow(lines[i + 1]) == Success(r.value.records[i].book)
  {
    if |lines| == 0 || lines[0] != HeaderLine then Failure(InvalidFileFormat)
    else
      var rows := lines[1..];
      assert forall i :: 1 <= i < |lines| ==> lines[i] == rows[i - 1];
      var records :- LoadRows(rows, counter);
      Success(Store(records, counter + |records|))
  }

  /** With a good header, a failed load reports the error of the first data
      line that does not parse. */
  lemma {:induction false} LoadFirstError(lines: seq<string>, counter: nat, i: nat)
    requires |lines| > 0 && lines[0] == HeaderLine
    requires IsFirstBadRow(lines[1..], i)
    ensures Load(lines, counter) == Failure(ParseRow(lines[i + 1]).error)
  {
    LoadRowsFirstError(lines[1..], counter, i);
  }

  /** The line `Book.__str__` gives for a book, as the file holds it. */
  function Line(b: Book): string {
    Format(b) + "\n"
  }

  /** The text of `str(n)` holds no comma. */
  lemma {:induction false} IntToStringNoComma(n: int)
    ensures ',' !in IntToString(n)
  {
    var t := IntToString(n);
    var d := NatToString(if n < 0 then -n else n);
    forall k | 0 <= k < |t|
      ensures t[k] != ','
    {
      if n < 0 && k > 0 {
        assert t[k] == d[k - 1];
      }
    }
  }

  /** A formatted row starts and ends with non-whitespace: the title's first
      character or the separating comma, and the amount's last digit. */
  lemma {:induction false} FormatTrimmed(b: Book)
    requires RowSafe(b)
    ensures |Format(b)| > 0 && !IsSpace(Format(b)[0]) && !IsSpace(Format(b)[|Format(b)| - 1])
  {
    var amount := IntToString(b.amount);
    var xs := [b.title, b.author, b.year, b.ganre, amount];
    var f := Format(b);
    assert f == b.title + "," + Join(xs[1..], ",");
    IntToStringEndsInDigit(b.amount);
    JoinEndsWithLast(xs, ",");
    assert f[|f| - 1] == amount[|amount| - 1];
    DigitIsNotSpace(amount[|amount| - 1]);
    if |b.title| == 0 {
      assert f[0] == ',';
    } else {
      assert f[0] == b.title[0];
    }
  }

  /** Reading back the line `Book.__str__` writes gives the same book,
      provided no column holds a comma and the title does not begin with
      whitespace. */
  lemma {:induction false} ParseRowOfLine(b: Book)
    requires RowSafe(b)
    ensures ParseRow(Line(b)) == Success(b)
  {
    var amount := IntToString(b.amount);
    var fields := [b.title, b.author, b.year, b.ganre, amount];
    FormatTrimmed(b);
    StripTrailingSpace(PythonSpaces, Format(b), "\n");
    assert Strip(Line(b)) == Format(b);
    IntToStringNoComma(b.amount);
    assert ',' !in Field(b, Title) && ',' !in Field(b, Author) && ',' !in Field(b, Year) && ',' !in Field(b, Ganre);
    assert forall i :: 0 <= i < |fields| ==> ',' !in fields[i];
    SplitJoin(fields, ',');
    assert RowFields(Line(b)) == fields;
    ParseIntToString(b.amount);
  }

  /** The file holding a header and the lines of `books`. */
  function FileOf(books: seq<Book>): (lines: seq<string>)
    ensures |lines| == |books| + 1 && lines[0] == HeaderLine
    ensures forall i :: 0 <= i < |books| ==> lines[i + 1] == Line(books[i])
  {
    [HeaderLine] + seq(|books|, i requires 0 <= i < |books| => Line(books[i]))
  }

  /** Loading the file written from `books` gives exactly those books, in
      order, under consecutive ids from the counter's position. */
  lemma {:induction false} LoadFileOf(books: seq<Book>, counter: nat)
    requires forall i :: 0 <= i < |books| ==> RowSafe(books[i])
    ensures Load(FileOf(books), counter).Success?
    ensures Values(Load(FileOf(books), counter).value) == books
    ensures forall i :: 0 <= i < |books| ==>
      Load(FileOf(books), counter).value.records[i] == Record(counter + i, books[i])
    ensures Load(FileOf(books), counter).value.nextId == counter + |books|
  {
    var lines := FileOf(books);
    forall i | 1 <= i < |lines|
      ensures ParseRow(lines[i]) == Success(books[i - 1])
    {
      ParseRowOfLine(books[i - 1]);
    }
    var s := Load(lines, counter).value;
    assert |Values(s)| == |books|;
    forall i | 0 <= i < |books|
      ensures s.records[i] == Record(counter + i, books[i])
    {
      assert ParseRow(lines[i + 1]) == Success(s.records[i].book);
    }
  }

  /** Unlike `add_book`, the loader never merges rows: two rows with the same
      title become two entries under two ids. */
  lemma {:induction false} LoadKeepsRepeatedTitles(first: Book, second: Book, counter: nat)
    requires RowSafe(first) && RowSafe(second) && first.title == second.title
    ensures Load(FileOf([first, second]), counter) ==
      Success(Store([Record(counter, first), Record(counter + 1, second)], counter + 2))
  {
    var books := [first, second];
    LoadFileOf(books, counter);
    var s := Load(FileOf(books), counter).value;
    assert s.records == [Record(counter, first), Record(counter + 1, second)];
  }

  /** `add_book` merges the same two books into one entry holding the copies
      of both. */
  lemma {:induction false} AddMergesRepeatedTitles(first: Book, second: Book, counter: nat)
    requires first.title == second.title
    ensures AddBook(AddBook(Empty(counter), first), second) ==
      Store([Record(counter, first.(amount := first.amount + second.amount))], counter + 1)
  {
    AddToEmpty(counter, first);
    AddToSingle(Record(counter, first), counter + 1, second);
  }
}
