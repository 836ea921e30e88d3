/** The catalogue store (`Library.books` together with the id counter
    `Library._id`) and its two mutators, `add_book` and `remove_book`. */
module Catalogue {
  import opened Wrappers
  import opened Books

  /** One entry of `Library.books`: the key and the book stored under it. */
  datatype Record = Record(id: nat, book: Book)

  /** The entries in insertion order (the iteration order of a Python dict)
      and the next id the counter will hand out. */
  datatype Store = Store(records: seq<Record>, nextId: nat)

  /** What the catalogue operations raise instead of returning. */
  datatype Error =
    | InvalidFileFormat                       // LibError("Invalid file format")
    | WrongFieldCount(fields: nat)            // ValueError unpacking a data row
    | NotAnInteger(text: string)              // ValueError from int()
    | BookNotFound                            // LibError("Book not found")
    | InvalidField                            // LibError("Invalid field")
    | NoSuchId(id: int)                       // KeyError from library.books[id]
    | EmptyCatalogue                          // ValueError from max() of nothing

  /** The store invariant: ids strictly increase along the insertion order
      and all lie below the counter, so the counter's next value is fresh. */
  predicate Valid(s: Store) {
    && (forall i, j :: 0 <= i < j < |s.records| ==> s.records[i].id < s.records[j].id)
    && (forall i :: 0 <= i < |s.records| ==> s.records[i].id < s.nextId)
  }

  /** The keys of `Library.books`. */
  function Ids(s: Store): set<nat> {
    set i | 0 <= i < |s.records| :: s.records[i].id
  }

  /** `Library.books.values()`, in insertion order. */
  function Values(s: Store): (r: seq<Book>)
    ensures |r| == |s.records|
    ensures forall i :: 0 <= i < |r| ==> r[i] == s.records[i].book
  {
    seq(|s.records|, i requires 0 <= i < |s.records| => s.records[i].book)
  }

  /** A freshly constructed, empty library whose counter stands at `next`. */
  function Empty(next: nat): (r: Store)
    ensures Valid(r) && Ids(r) == {}
    ensures r.nextId == next
  {
    Store([], next)
  }

  /** Under the invariant, no two entries share an id. */
  lemma {:induction false} ValidIdsDistinct(s: Store, i: nat, j: nat)
    requires Valid(s)
    requires i < |s.records| && j < |s.records| && i != j
    ensures s.records[i].id != s.records[j].id
  {
    if i > j {
      assert s.records[j].id < s.records[i].id;
    }
  }

  /** `i` is the first entry, in insertion order, whose title is `title`. */
  predicate IsFirstTitle(rs: seq<Record>, title: string, i: int) {
    && 0 <= i < |rs|
    && rs[i].book.title == title
    && forall j :: 0 <= j < i ==> rs[j].book.title != title
  }

  /** Whether some entry has title `title`. */
  predicate HasTitle(rs: seq<Record>, title: string) {
    exists i :: 0 <= i < |rs| && rs[i].book.title == title
  }

  /** `add_book`: a book whose title is already held adds its copies to the
      first entry with that title (its other fields are dropped); any other
      book is stored under the counter's next id, which is then advanced. */
  function AddBook(s: Store, b: Book): (r: Store)
    ensures !HasTitle(s.records, b.title) ==>
      r == Store(s.records + [Record(s.nextId, b)], s.nextId + 1)
    ensures forall i {:trigger IsFirstTitle(s.records, b.title, i)} :: IsFirstTitle(s.records, b.title, i) ==>
      r == Store(s.records[i := Record(s.records[i].id, WithAmount(s.records[i].book, s.records[i].book.amount + b.amount))], s.nextId)
    ensures s.nextId <= r.nextId
    ensures Ids(r) <= Ids(s) + {s.nextId}
    ensures Ids(s) <= Ids(r)
    ensures Valid(s) ==> Valid(r)
  {
    var rs := s.records;
    match FirstWhere(rs, (rec: Record) => rec.book.title == b.title)
    case Some(i) =>
      var held := rs[i].book;
      var nb := WithAmount(held, held.amount + b.amount);
      assert IsFirstTitle(rs, b.title, i);
      assert HasTitle(rs, b.title);
      FirstTitleUnique(rs, b.title, i);
      UpdateKeepsIds(s, i, nb);
      Store(rs[i := Record(rs[i].id, nb)], s.nextId)
    case None =>
      assert !HasTitle(rs, b.title);
      AppendFresh(s, b);
      Store(rs + [Record(s.nextId, b)], s.nextId + 1)
  }

  /** Only one entry can be the first with a given title. */
  lemma {:induction false} FirstTitleUnique(rs: seq<Record>, title: string, i: nat)
    requires IsFirstTitle(rs, title, i)
    ensures forall j :: IsFirstTitle(rs, title, j) ==> j == i
  {
  }

  /** Replacing the book of one entry, keeping its id, keeps the ids and
      the invariant. */
  lemma {:induction false} UpdateKeepsIds(s: Store, i: nat, b: Book)
    requires i < |s.records|
    ensures var r := Store(s.records[i := Record(s.records[i].id, b)], s.nextId);
      Ids(r) == Ids(s) && (Valid(s) ==> Valid(r))
  {
    var r := Store(s.records[i := Record(s.records[i].id, b)], s.nextId);
    assert forall k :: 0 <= k < |s.records| ==> r.records[k].id == s.records[k].id;
  }

  /** Appending an entry under the counter's id, and advancing the counter,
      adds exactly that id and keeps the invariant. */
  lemma {:induction false} AppendFresh(s: Store, b: Book)
    ensures var r := Store(s.records + [Record(s.nextId, b)], s.nextId + 1);
      Ids(r) == Ids(s) + {s.nextId} && (Valid(s) ==> Valid(r))
  {
    var r := Store(s.records + [Record(s.nextId, b)], s.nextId + 1);
    assert forall k :: 0 <= k < |s.records| ==> r.records[k] == s.records[k];
    assert r.records[|s.records|].id == s.nextId;
  }

  /** `remove_book` will act on an entry with this title holding at least
      one copy; entries with the title but no copies are skipped over. */
  predicate Removable(rec: Record, title: string) {
    rec.book.title == title && rec.book.amount >= 1
  }

  /** `i` is the first entry, in insertion order, that `remove_book` may act on. */
  predicate IsFirstRemovable(rs: seq<Record>, title: string, i: int) {
    && 0 <= i < |rs|
    && Removable(rs[i], title)
    && forall j :: 0 <= j < i ==> !Removable(rs[j], title)
  }

  /** The entries of `rs` without the one at index `i`. */
  function Delete(rs: seq<Record>, i: nat): (r: seq<Record>)
    requires i < |rs|
    ensures |r| == |rs| - 1
    ensures forall j :: 0 <= j < i ==> r[j] == rs[j]
    ensures forall j :: i <= j < |r| ==> r[j] == rs[j + 1]
  {
    rs[..i] + rs[i + 1..]
  }

  /** `remove_book`: the first entry with this title and at least one copy
      loses a copy, and is deleted when that was its last one; the counter
      is never wound back, so a deleted id is not handed out again. Without
      such an entry the store is left as it was and "Book not found" is
      raised. */
  function RemoveBook(s: Store, title: string): (r: Result<Store, Error>)
    ensures r.Failure? <==> forall i :: 0 <= i < |s.records| ==> !Removable(s.records[i], title)
    ensures r.Failure? ==> r.error == BookNotFound
    ensures forall i {:trigger IsFirstRemovable(s.records, title, i)} :: IsFirstRemovable(s.records, title, i) && s.records[i].book.amount > 1 ==>
      r == Success(Store(s.records[i := Record(s.records[i].id, WithAmount(s.records[i].book, s.records[i].book.amount - 1))], s.nextId))
    ensures forall i {:trigger IsFirstRemovable(s.records, title, i)} :: IsFirstRemovable(s.records, title, i) && s.records[i].book.amount == 1 ==>
      r == Success(Store(Delete(s.records, i), s.nextId))
    ensures r.Success? ==> r.value.nextId == s.nextId && Ids(r.value) <= Ids(s)
    ensures r.Success? && Valid(s) ==> Valid(r.value)
  {
    var rs := s.records;
    match FirstWhere(rs, (rec: Record) => Removable(rec, title))
    case None => Failure(BookNotFound)
    case Some(i) =>
      assert IsFirstRemovable(rs, title, i);
      FirstRemovableUnique(rs, title, i);
      var b := rs[i].book;
      if b.amount > 1 then
        var nb := WithAmount(b, b.amount - 1);
        UpdateKeepsIds(s, i, nb);
        Success(Store(rs[i := Record(rs[i].id, nb)], s.nextId))
      else
        DeleteKeepsIds(s, i);
        Success(Store(Delete(rs, i), s.nextId))
  }

  /** Only one entry can be the first that `remove_book` may act on. */
  lemma {:induction false} FirstRemovableUnique(rs: seq<Record>, title: string, i: nat)
    requires IsFirstRemovable(rs, title, i)
    ensures forall j :: IsFirstRemovable(rs, title, j) ==> j == i
  {
  }

  /** Deleting one entry drops ids only and keeps the invariant. */
  lemma {:induction false} DeleteKeepsIds(s: Store, i: nat)
    requires i < |s.records|
    ensures var r := Store(Delete(s.records, i), s.nextId);
      Ids(r) <= Ids(s) && (Valid(s) ==> Valid(r))
  {
    var r := Store(Delete(s.records, i), s.nextId);
    forall x | x in Ids(r)
      ensures x in Ids(s)
    {
      var k :| 0 <= k < |r.records| && r.records[k].id == x;
      if k >= i {
        assert r.records[k] == s.records[k + 1];
      }
    }
  }

  /** Adding one copy of a title not yet held and then removing that title
      again leaves the entries as they were; only the counter has moved on. */
  lemma {:induction false} AddThenRemoveNew(s: Store, b: Book)
    requires !HasTitle(s.records, b.title)
    requires b.amount == 1
    ensures RemoveBook(AddBook(s, b), b.title) == Success(Store(s.records, s.nextId + 1))
  {
    var a := AddBook(s, b);
    var n := |s.records|;
    assert IsFirstRemovable(a.records, b.title, n);
    assert Delete(a.records, n) == s.records;
  }

  /** Adding one copy of a title whose first entry holds copies and then
      removing that title gives back exactly the store we started from. */
  lemma {:induction false} AddThenRemoveExisting(s: Store, b: Book, i: nat)
    requires IsFirstTitle(s.records, b.title, i)
    requires s.records[i].book.amount >= 1
    requires b.amount == 1
    ensures RemoveBook(AddBook(s, b), b.title) == Success(s)
  {
    var held := s.records[i].book;
    var more := WithAmount(held, held.amount + 1);
    var a := Store(s.records[i := Record(s.records[i].id, more)], s.nextId);
    assert AddBook(s, b) == a;
    assert IsFirstRemovable(a.records, b.title, i);
    BookExtensionality(WithAmount(more, held.amount), held);
    assert a.records[i := Record(s.records[i].id, held)] == s.records;
  }

  /** The first book added to an empty store goes under the counter's id. */
  lemma {:induction false} AddToEmpty(counter: nat, b: Book)
    ensures AddBook(Empty(counter), b) == Store([Record(counter, b)], counter + 1)
  {
    assert !HasTitle(Empty(counter).records, b.title);
  }

  /** A book with the title of a store's only entry is merged into it. */
  lemma {:induction false} AddToSingle(rec: Record, next: nat, b: Book)
    requires rec.book.title == b.title
    ensures AddBook(Store([rec], next), b) ==
      Store([Record(rec.id, rec.book.(amount := rec.book.amount + b.amount))], next)
  {
    var s := Store([rec], next);
    assert IsFirstTitle(s.records, b.title, 0);
    assert s.records[0 := Record(rec.id, WithAmount(rec.book, rec.book.amount + b.amount))] ==
      [Record(rec.id, rec.book.(amount := rec.book.amount + b.amount))];
  }
}
