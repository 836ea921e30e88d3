# Library catalogue, modelled in Dafny

This project models the in-memory catalogue engine of a small console
library manager written in Python (`main.py`): the `Book` record and its
setters, the `Library` store with its id counter, the file loader of
`Library.__enter__`, `add_book`, `remove_book`, `total_amount`,
`authors_books`, `year_books`, `most_popular_ganre`, the copy-weighted
grouping behind the genre and year charts, and the field dispatch of the
"Edit book" menu item.

The catalogue is a `Store`: the entries of `Library.books` in insertion
order (the iteration order of a Python dict), each an id and a `Book`, plus
the counter `Library._id` that hands out the next id. Its invariant `Valid`
says that ids strictly increase along the entries and all lie below the
counter. Every operation is a pure function. An operation that raises in
Python returns `Failure` with an `Error` saying which exception it was.

Modules, in dependency order:

- `Wrappers`: `Option` and `Result`.
- `Text`: Python's `str.strip()`, `str.split(",")`, `sep.join(...)`, `int(...)`, `str(int)` and `str.lower()`, as far as the catalogue uses them.
- `Sums`: the sum of a measure over a sequence, with its algebra.
- `Books`: `Book`, its columns, the `change_*` setters and `__str__`.
- `Catalogue`: the store, its invariant, `add_book` and `remove_book`.
- `Queries`: `total_amount`, the two filters, the weighted grouping and `most_popular_ganre`.
- `Loader`: the header check and row parsing of `Library.__enter__`.
- `Editing`: menu item 2, the field-name dispatch and the edit itself.
- `Session`: menu items 1 to 3 as commands. A command that raises leaves the store unchanged.

## Model

| member | source | states |
|---|---|---|
| Text.StripIn | main.py:63 | `line.strip()` is an infix of the line that neither starts nor ends with whitespace, and every character cut off either end is whitespace |
| Text.Split | main.py:63 | `split(",")` gives at least one piece, no piece contains the separator, and joining the pieces with it gives back the text |
| Text.SplitJoin | main.py:63 | splitting undoes joining when no piece contains the separator |
| Text.ParseInt | main.py:64 | `int(text)` succeeds exactly when the text, without the whitespace `int()` skips at either end, is an optional sign followed by decimal digits |
| Text.IntSpaceIsSpaceButSeparators | main.py:64 | the whitespace `int()` skips is every `str.isspace()` character except the ASCII information separators U+001C to U+001F, which CPython passes on unchanged to a parser that skips only C's whitespace |
| Text.ParseIntValue | main.py:64 | the value `int()` gives: the text it reads is the sign, some leading zeros, then `str` of the value's magnitude; a negative value has the sign `-`, and a `-` sign gives a value of at most 0 |
| Text.IntKeepsAsciiSeparator | main.py:64 | `int("\x1c5")` fails: an ASCII information separator is not whitespace to `int()` |
| Text.IntKeepsSeparatorBesideUnicode | main.py:64 | `int("\x1c5\xa0")` fails: a non-ASCII space elsewhere does not make the separator skippable |
| Text.IntKeepsSeparatorAfterUnicode | main.py:64 | `int("\xa0\x1c5")` fails: the no-break space is skipped, the separator is not |
| Text.IntSkipsUnicodeSpace | main.py:64 | `int("\xa05")` is 5: non-ASCII whitespace is skipped |
| Text.NatToString | main.py:17 | `str(n)` of a natural number is a run of digits denoting `n`, without a leading zero unless `n` is 0 |
| Text.ParseIntToString | main.py:64 | `int(str(n)) == n` for every integer, so an amount `__str__` writes (main.py:17) reads back |
| Text.AsciiLower | main.py:155 | lower-casing keeps the length, leaves no capital A-Z, turns each capital into its small letter and keeps every other character |
| Text.AsciiLowerIdempotent | main.py:155 | lower-casing twice is lower-casing once |
| Books.WithText | main.py:19-33 | `change_title`/`change_author`/`change_year`/`change_ganre`: the chosen column reads the new value; every other column and the amount are unchanged |
| Books.WithAmount | main.py:35-37 | `change_amount`: the amount reads the new value; every text column is unchanged |
| Catalogue.Empty | main.py:54 | a fresh store is valid, holds no ids and keeps the counter it is given |
| Catalogue.ValidIdsDistinct | main.py:65-66 | since ids come from an advancing counter (main.py:48), under the invariant no two entries share an id |
| Catalogue.AddBook | main.py:73-79 | a novel title is appended under the counter's id and the counter advances; otherwise the first entry with that title gains the added copies, keeping its id and other fields, and nothing else changes; ids only grow by the old counter value; the invariant is preserved |
| Catalogue.RemoveBook | main.py:81-90 | fails with "Book not found" exactly when no entry with the title holds a copy; otherwise the first such entry loses one copy, or is deleted if it held exactly one; entries with the title but no copies are skipped; other entries and the counter are untouched; the invariant is preserved |
| Catalogue.AddThenRemoveNew | main.py:73-90 | adding one copy of a new title and removing it restores the entries; only the counter has moved |
| Catalogue.AddThenRemoveExisting | main.py:73-90 | adding one copy of a held title and removing it restores the store exactly |
| Catalogue.AddToEmpty | main.py:78-79 | the first book added to an empty library is stored under the counter's id, and the counter advances by one |
| Catalogue.AddToSingle | main.py:74-77 | a book whose title matches a one-entry library's only book is merged into that entry: same id, copies summed, every other field kept |
| Queries.TotalAmount | main.py:92-93 | the total of an empty catalogue is 0 |
| Queries.TotalNonNegative | main.py:92-93 | the total is not negative while no amount is |
| Queries.TotalAfterAdd | main.py:73-93 | `add_book` raises the total by exactly the added copies |
| Queries.TotalAfterRemove | main.py:81-93 | a successful `remove_book` lowers the total by exactly one |
| Queries.Matching | main.py:95-101 | the filter keeps only matching books, drawn from the input, and keeps every matching book |
| Queries.MatchingConcat | main.py:95-101 | filtering distributes over concatenation, so matches keep insertion order |
| Queries.MatchingEmpty | main.py:95-101 | there are no matches exactly when no book carries the value |
| Queries.AuthorsBooks | main.py:95-97 | `None` exactly when no entry has that author; otherwise the non-empty list of that author's books in insertion order |
| Queries.YearBooks | main.py:99-101 | `None` exactly when no entry has that year; otherwise the non-empty list of that year's books in insertion order |
| Queries.CopiesOfMatching | main.py:104-109 | the copies counted for a value equal the summed amounts of the books the filter for that value keeps |
| Queries.GroupsKeys | main.py:104-109 | the dictionary's keys are exactly the column's values, each once, in order of first occurrence |
| Queries.GroupsWeights | main.py:104-109 | each key's count is the total copies of the books carrying it |
| Queries.GroupsSum | main.py:104-109 | the counts add up to the total copies that `total_amount` reports |
| Queries.WeightedCounts | main.py:207-223 | the grouping for any column (the genre and year charts, and `most_popular_ganre` at main.py:104-109): keys in first-occurrence order covering every value, weights equal to the copies per value, weights summing to `total_amount` |
| Queries.MaxWeight | main.py:111 | `max(counts.values())` bounds every count and is reached by one |
| Queries.KeysWeighingMembers | main.py:112 | the comprehension keeps exactly the keys whose count equals the maximum |
| Queries.KeysWeighingOrdered | main.py:112 | the kept keys stay in first-occurrence order |
| Queries.TopKeys | main.py:111-112 | the kept keys are exactly the values no other value outweighs |
| Queries.MostPopularGanres | main.py:103-113 | fails exactly on an empty catalogue, as `max` of nothing does; otherwise a non-empty list holding exactly the genres with the most copies, in first-occurrence order |
| Queries.MostPopularGanre | main.py:103-114 | the same result joined with `", "` |
| Loader.RowFields | main.py:63 | the pieces of a stripped row contain no comma and join back to the stripped row |
| Loader.ParseRow | main.py:63-64 | a row that does not split into five fields fails with its field count; a fifth field `int()` rejects fails with that text; otherwise the row succeeds and its amount is what `int()` gives for the fifth field |
| Loader.ParseRowRejectsSeparatorAmount | main.py:63-64 | the row `t,a,y,g,\xa0\x1c5` fails with the `ValueError` of `int()`: `strip()` keeps the amount column whole and `int()` refuses it |
| Loader.ParseRowColumns | main.py:63-65 | the text columns of a parsed row hold no comma, and rejoining them with the fifth field's text gives back the stripped line |
| Loader.LoadRows | main.py:62-66 | the rows load exactly when each parses; loaded entries keep file order under consecutive ids |
| Loader.LoadRowsFirstError | main.py:62-66 | a failed load reports the error of the first row that does not parse |
| Loader.Load | main.py:57-66 | any first line other than the exact header, or none, fails with "Invalid file format"; with it, N data rows give N valid entries with ids counter..counter+N-1 in file order, the counter ends at counter+N, and each entry is its row parsed |
| Loader.LoadFirstError | main.py:57-66 | with a good header, a failed load reports the first bad row's error |
| Loader.ParseRowOfLine | main.py:15-17 | read back with the loader's split and `int()` (main.py:63-64), the row `__str__` prints for a book parses back to the same book when no column holds a comma or a line break and the title does not start with whitespace |
| Loader.LoadFileOf | main.py:57-66 | loading a file of books formatted by `__str__`, none with a comma or line break in a column or whitespace opening its title, gives back exactly those books in order under consecutive ids, with the counter advanced by their number |
| Loader.LoadKeepsRepeatedTitles | main.py:62-66 | two rows with one title, written safely as above, load as two entries under two ids |
| Loader.AddMergesRepeatedTitles | main.py:73-77 | `add_book` on the same two books keeps one entry holding both amounts |
| Editing.ParseTarget | main.py:154-168 | after lower-casing, a field name that spells one of title/author/year/ganre/amount selects that field; any other name selects none |
| Editing.ParseTargetName | main.py:157-166 | each field's own name selects it |
| Editing.ParseTargetIgnoresCase | main.py:155 | field names are matched regardless of letter case |
| Editing.IdIndexMember | main.py:158 | the lookup `library.books[id]` finds an entry exactly when the id is stored |
| Editing.Edited | main.py:157-166 | a text field becomes the new value; an amount becomes the value's integer, or fails when it is not one |
| Editing.EditField | main.py:153-168 | an unknown field fails with "Invalid field" before the id is looked up; a missing id fails as the lookup does; on success the entry under the id has just that field changed, every other entry, every id and the counter are unchanged, and the invariant is preserved |
| Editing.TotalAfterTextEdit | main.py:157-164 | editing a text field leaves `total_amount` unchanged |
| Editing.TotalAfterAmountEdit | main.py:165-166 | editing the amount moves `total_amount` by the new amount minus the old one |
| Editing.AddCopiesMatchesAddBook | main.py:74-77 | while amounts are numbers, `value.amount += book.amount` computes the amount `add_book` leaves in the entry it merges into |
| Editing.AmountEditThenAdd | main.py:165-166 | with the amount converted, then `add_book` (main.py:76) run, setting 3 copies and adding one more gives 4 |
| Session.Step | main.py:144-172 | item 1 converts the amount before adding; item 2 converts the id before editing; item 3 removes; on success the counter never decreases, ids grow only by the old counter value, and the invariant is preserved |
| Session.Apply | main.py:229-235 | a command that raises leaves the catalogue as it was; either way the invariant is preserved, the counter never decreases and ids grow only by the old counter value |
| Session.Run | main.py:128-228 | a whole session preserves the invariant and never winds the counter back |
| Session.NeverReused | main.py:78-79 | since the class counter `_id` (main.py:48) only ever advances, an id handed out and no longer stored is never stored again |
| Session.RemovalsKeepCounter | main.py:81-90 | removals alone never move the counter |

## Left out

- Opening, reading and closing the file and the context-manager protocol (main.py:50-56, 68-71): `Load` takes the lines the file yields, newline included, after Python's newline translation. Splitting the file into lines is not modelled, so the round trip through a file is stated only for books with no line break in any column.
- `Library.__str__` and the menu's `tabulate` tables (main.py:116-121, 187-191, 199-203) are display only.
- The matplotlib charts (main.py:214-215, 224-225) are display only; the data they plot is `WeightedCounts`.
- The interactive loop: `input()`, `print`, the choice number and its conversion, and the read-only items 5 to 11 (main.py:123-228). Their results are the `Queries` functions. The "Author not found" and "Year not found" errors raised on a `None` filter result (main.py:193, 205) are not modelled, because they never change the catalogue.
- Text.ParseInt: models `int()` as skipped whitespace, an optional sign and ASCII digits. It does not model `_` separators between digits or non-ASCII decimal digits, which Python accepts. It also does not model the limit of 4300 digits that Python 3.11 and later put on converting text to an integer; longer literals raise `ValueError` there and parse here.
- `str.lower()` is modelled as ASCII lower-casing. This makes the same field decision as Python: the only non-ASCII character that lower-cases into ASCII is the Kelvin sign, which becomes `k`, and no field name contains `k`.
- `Library._id` is a class attribute shared by every `Library` (main.py:48). Here it is the counter of one store, which `Load` receives as a parameter.
- A load that fails on a bad row has already advanced the shared counter past the rows before it. This is not modelled: the failure leaves the program.
- Text.ParseIntToString: holds for every integer here, while in Python 3.11 and later `str(n)` itself raises `ValueError` when `n` has more than 4300 digits.
- Editing.Edited: converts a new amount with `int()` and fails when it is not an integer. As written, the menu stores the raw text (main.py:165-166); see Findings.
- Editing.EditField: converts a new amount with `int()` and fails when it is not an integer. As written, the menu stores the raw text (main.py:165-166); see Findings.

## Findings

| source | as written | input that shows it | evidently intended | confidence | as-written member | corrected member |
|---|---|---|---|---|---|---|
| main.py:165-166 | the edit menu passes the input text to `change_amount` unconverted, so `amount` becomes a string | edit entry 0's amount to `3`, then add one more copy of its title: `add_book` evaluates `"3" += 1` and raises `TypeError` (`remove_book`'s `>` comparison would raise too) | convert the amount with `int()`, as item 1 does (main.py:149), so the entry holds 4 copies | not executed; high | Editing.AmountEditAsWritten, Editing.AddCopiesAsWritten, Editing.AmountEditAsWrittenBreaksAdd | Editing.EditField, Editing.AmountEditThenAdd |
