/** Menu item 2, "Edit book": the field name is lower-cased and dispatched
    to one of the five setters of the book stored under the given id. */
module Editing {
  import opened Wrappers
  import opened Text
  import opened Books
  import opened Catalogue
  import opened Sums
  import opened Queries

  /** What an edit may change: one of the four text columns, or the amount. */
  datatype Target = TextTarget(column: Column) | AmountTarget

  /** The lower-case field name the menu compares against. */
  function TargetName(t: Target): string {
    match t
    case TextTarget(Title) => "title"
    case TextTarget(Author) => "author"
    case TextTarget(Year) => "year"
    case TextTarget(Ganre) => "ganre"
    case AmountTarget => "amount"
  }

  /** Distinct targets have distinct names. */
  lemma {:induction false} TargetNameInjective(t: Target, u: Target)
    requires TargetName(t) == TargetName(u)
    ensures t == u
  {
    assert TargetName(t)[0] == TargetName(u)[0];
  }

  /** `field.lower()` followed by the `if`/`elif` chain on it: the target
      whose name the lower-cased text spells, if any. */
  function ParseTarget(name: string): (r: Option<Target>)
    ensures r.Some? ==> TargetName(r.value) == AsciiLower(name)
    ensures r.None? ==> forall t :: TargetName(t) != AsciiLower(name)
  {
    var f := AsciiLower(name);
    if f == "title" then Some(TextTarget(Title))
    else if f == "author" then Some(TextTarget(Author))
    else if f == "year" then Some(TextTarget(Year))
    else if f == "ganre" then Some(TextTarget(Ganre))
    else if f == "amount" then Some(AmountTarget)
    else None
  }

  /** A field name in lower case is recognised as its own target. */
  lemma {:induction false} ParseTargetName(t: Target)
    ensures ParseTarget(TargetName(t)) == Some(t)
  {
    var n := TargetName(t);
    assert AsciiLower(n) == n;
    TargetNameInjective(ParseTarget(n).value, t);
  }

  /** Field names are matched regardless of letter case. */
  lemma {:induction false} ParseTargetIgnoresCase(name: string)
    ensures ParseTarget(AsciiLower(name)) == ParseTarget(name)
  {
    AsciiLowerIdempotent(name);
  }

  /** Position of the entry stored under `id`, or `|rs|` when there is none. */
  function IdIndex(rs: seq<Record>, id: int): (i: nat)
    ensures i <= |rs|
    ensures i < |rs| ==> rs[i].id == id
  {
    if |rs| == 0 then 0
    else if rs[0].id == id then 0
    else 1 + IdIndex(rs[1..], id)
  }

  /** `IdIndex` finds every id that is stored. */
  lemma {:induction false} IdIndexFinds(rs: seq<Record>, id: int, k: nat)
    requires k < |rs| && rs[k].id == id
    ensures IdIndex(rs, id) <= k
    decreases k
  {
    if k > 0 && rs[0].id != id {
      IdIndexFinds(rs[1..], id, k - 1);
    }
  }

  /** An id is stored exactly when `IdIndex` finds it. */
  lemma {:induction false} IdIndexMember(s: Store, id: int)
    ensures id in Ids(s) <==> IdIndex(s.records, id) < |s.records|
  {
    if id in Ids(s) {
      var k :| 0 <= k < |s.records| && s.records[k].id == id;
      IdIndexFinds(s.records, id, k);
    }
    if IdIndex(s.records, id) < |s.records| {
      assert s.records[IdIndex(s.records, id)].id == id;
    }
  }

  /** The book a target edit leaves behind, given the new value's text;
      the amount is converted with `int()`. */
  function Edited(b: Book, t: Target, value: string): (r: Result<Book, Error>)
    ensures t.TextTarget? ==> r == Success(WithText(b, t.column, value))
    ensures t.AmountTarget? ==> (r.Success? <==> IsIntLiteral(IntText(value)))
    ensures t.AmountTarget? && r.Success? ==> r.value == WithAmount(b, ParseInt(value).value)
    ensures r.Failure? ==> r.error == NotAnInteger(value)
  {
    match t
    case TextTarget(c) => Success(WithText(b, c, value))
    case AmountTarget =>
      match ParseInt(value)
      case None => Failure(NotAnInteger(value))
      case Some(n) => Success(WithAmount(b, n))
  }

  /** Edit of field `name` of the book stored under `id`. An unknown field
      name fails first; a known one on a missing id fails as the dictionary
      lookup does; a new amount must be an integer. On success only that
      entry's book changes, in that one field, and ids, order and counter
      stay as they were. */
  function EditField(s: Store, id: int, name: string, value: string): (r: Result<Store, Error>)
    ensures ParseTarget(name).None? ==> r == Failure(InvalidField)
    ensures ParseTarget(name).Some? && id !in Ids(s) ==> r == Failure(NoSuchId(id))
    ensures r.Success? <==>
      && ParseTarget(name).Some? && id in Ids(s)
      && (ParseTarget(name).value.AmountTarget? ==> IsIntLiteral(IntText(value)))
    ensures r.Success? ==>
      var i := IdIndex(s.records, id);
      && i < |s.records|
      && r.value.nextId == s.nextId
      && |r.value.records| == |s.records|
      && r.value.records[i] == Record(id, Edited(s.records[i].book, ParseTarget(name).value, value).value)
      && (forall j :: 0 <= j < |s.records| && j != i ==> r.value.records[j] == s.records[j])
    ensures r.Success? ==> Ids(r.value) == Ids(s)
    ensures r.Success? && Valid(s) ==> Valid(r.value)
  {
    match ParseTarget(name)
    case None => Failure(InvalidField)
    case Some(t) =>
      IdIndexMember(s, id);
      var rs := s.records;
      var i := IdIndex(rs, id);
      if i == |rs| then Failure(NoSuchId(id))
      else
        var b :- Edited(rs[i].book, t, value);
        var r := Store(rs[i := Record(id, b)], s.nextId);
        assert forall k :: 0 <= k < |rs| ==> r.records[k].id == rs[k].id;
        assert Ids(r) == Ids(s);
        Success(r)
  }

  /** Editing a text column never changes the copies held. */
  lemma {:induction false} TotalAfterTextEdit(s: Store, id: int, name: string, value: string)
    requires EditField(s, id, name, value).Success?
    requires ParseTarget(name).value.TextTarget?
    ensures TotalAmount(EditField(s, id, name, value).value) == TotalAmount(s)
  {
    var r := EditField(s, id, name, value).value;
    var i := IdIndex(s.records, id);
    ValuesUpdated(s, r, i);
    SumUpdate(Values(s), i, r.records[i].book, Amount);
  }

  /** Setting the amount of one entry to `n` moves the total by the
      difference between `n` and the entry's old amount. */
  lemma {:induction false} TotalAfterAmountEdit(s: Store, id: int, name: string, value: string)
    requires EditField(s, id, name, value).Success?
    requires ParseTarget(name).value.AmountTarget?
    ensures TotalAmount(EditField(s, id, name, value).value) ==
      TotalAmount(s) - s.records[IdIndex(s.records, id)].book.amount + ParseInt(value).value
  {
    var r := EditField(s, id, name, value).value;
    var i := IdIndex(s.records, id);
    ValuesUpdated(s, r, i);
    SumUpdate(Values(s), i, r.records[i].book, Amount);
  }

  // ---------------------------------------------------------------------
  // The amount edit as the menu writes it

  /** What the `amount` attribute holds: the number every other path stores,
      or the raw text the edit menu passes to `change_amount` unconverted. */
  datatype StoredAmount = Count(n: int) | RawText(text: string)

  /** Menu item 2 with field `amount`, as written: `change_amount(new_value)`
      stores the input text itself. */
  function AmountEditAsWritten(value: string): (a: StoredAmount)
    ensures !a.Count? && a.text == value
  {
    RawText(value)
  }

  /** `value.amount += book.amount` in `add_book`: Python raises `TypeError`
      (`None` here) when the stored amount is text, since text and a number
      cannot be added. */
  function AddCopiesAsWritten(a: StoredAmount, n: int): (r: Option<StoredAmount>)
    ensures r.None? <==> a.RawText?
    ensures a.Count? ==> r == Some(Count(a.n + n))
  {
    match a
    case Count(m) => Some(Count(m + n))
    case RawText(_) => None
  }

  /** While every stored amount is a number, the as-written merge agrees
      with the catalogue's: the entry `add_book` merges into ends up with
      the amount `value.amount += book.amount` computes. */
  lemma {:induction false} AddCopiesMatchesAddBook(s: Store, b: Book, i: nat)
    requires IsFirstTitle(s.records, b.title, i)
    ensures AddCopiesAsWritten(Count(s.records[i].book.amount), b.amount) ==
      Some(Count(AddBook(s, b).records[i].book.amount))
  {
    assert AddBook(s, b).records[i].book == WithAmount(s.records[i].book, s.records[i].book.amount + b.amount);
  }

  /** After setting the amount to "3" through the menu, adding one more
      copy of the same title fails, although it should give 4 copies. */
  lemma {:induction false} AmountEditAsWrittenBreaksAdd()
    ensures AddCopiesAsWritten(AmountEditAsWritten("3"), 1).None?
  {
  }

  /** With the amount converted, the same sequence gives 4 copies: edit
      entry 0 to 3 copies, then add one more copy of its title. */
  lemma {:induction false} AmountEditThenAdd(b: Book, extra: Book)
    requires extra.title == b.title && extra.amount == 1
    ensures var s := Store([Record(0, b)], 1);
      && EditField(s, 0, "amount", "3") == Success(Store([Record(0, b.(amount := 3))], 1))
      && AddBook(EditField(s, 0, "amount", "3").value, extra) == Store([Record(0, b.(amount := 4))], 1)
  {
    var s := Store([Record(0, b)], 1);
    assert AsciiLower("amount") == "amount";
    assert ParseTarget("amount") == Some(AmountTarget);
    assert IntText("3") == "3";
    assert ParseInt("3") == Some(3);
    assert s.records[0].id == 0;
    assert 0 in Ids(s);
    assert IdIndex(s.records, 0) == 0;
    var e := Store([Record(0, b.(amount := 3))], 1);
    assert EditField(s, 0, "amount", "3").value.records == e.records;
    AddToSingle(Record(0, b.(amount := 3)), 1, extra);
  }
}
