/** The read-only queries over the catalogue: `total_amount`,
    `authors_books`, `year_books`, the copy-weighted grouping behind the
    genre and year charts, and `most_popular_ganre`. */
module Queries {
  import opened Wrappers
  import opened Sums
  import opened Books
  import opened Catalogue

  /** The copy count of a book, as a measure to sum. */
  function Amount(b: Book): int {
    b.amount
  }

  // ---------------------------------------------------------------------
  // total_amount

  /** `total_amount`: the copies held across the whole catalogue. */
  function TotalAmount(s: Store): (r: int)
    ensures |s.records| == 0 ==> r == 0
  {
    Sum(Values(s), Amount)
  }

  /** The total is never negative while every entry holds a non-negative
      number of copies. */
  lemma {:induction false} TotalNonNegative(s: Store)
    requires forall i :: 0 <= i < |s.records| ==> s.records[i].book.amount >= 0
    ensures TotalAmount(s) >= 0
  {
    SumNonNegative(Values(s), Amount);
  }

  /** `add_book` raises the total by exactly the added copies, whether it
      merged them into an existing entry or stored a new one. */
  lemma {:induction false} TotalAfterAdd(s: Store, b: Book)
    ensures TotalAmount(AddBook(s, b)) == TotalAmount(s) + b.amount
  {
    var r := AddBook(s, b);
    var found := FirstWhere(s.records, (rec: Record) => rec.book.title == b.title);
    if found.Some? {
      var i := found.value;
      assert IsFirstTitle(s.records, b.title, i);
      assert Values(r) == Values(s)[i := r.records[i].book];
      SumUpdate(Values(s), i, r.records[i].book, Amount);
    } else {
      assert !HasTitle(s.records, b.title);
      assert Values(r)[..|Values(r)| - 1] == Values(s);
    }
  }

  /** Replacing one entry replaces one book among the values. */
  lemma {:induction false} ValuesUpdated(s: Store, r: Store, i: nat)
    requires i < |s.records| && |r.records| == |s.records|
    requires forall j :: 0 <= j < |s.records| && j != i ==> r.records[j] == s.records[j]
    ensures Values(r) == Values(s)[i := r.records[i].book]
  {
  }

  /** Deleting one entry deletes one book from the values. */
  lemma {:induction false} ValuesDeleted(s: Store, r: Store, i: nat)
    requires i < |s.records| && r.records == Delete(s.records, i)
    ensures Values(r) == Values(s)[..i] + Values(s)[i + 1..]
  {
  }

  /** A successful `remove_book` lowers the total by exactly one copy. */
  lemma {:induction false} TotalAfterRemove(s: Store, title: string)
    requires RemoveBook(s, title).Success?
    ensures TotalAmount(RemoveBook(s, title).value) == TotalAmount(s) - 1
  {
    var r := RemoveBook(s, title).value;
    var found := FirstWhere(s.records, (rec: Record) => Removable(rec, title));
    var i := found.value;
    assert IsFirstRemovable(s.records, title, i);
    if s.records[i].book.amount > 1 {
      ValuesUpdated(s, r, i);
      SumUpdate(Values(s), i, r.records[i].book, Amount);
    } else {
      ValuesDeleted(s, r, i);
      SumDelete(Values(s), i, Amount);
    }
  }

  // ---------------------------------------------------------------------
  // authors_books and year_books

  /** The books whose column `c` reads exactly `v`, in the order given. */
  function Matching(bs: seq<Book>, c: Column, v: string): (r: seq<Book>)
    ensures |r| <= |bs|
    ensures forall k :: 0 <= k < |r| ==> Field(r[k], c) == v
    ensures forall k :: 0 <= k < |r| ==> r[k] in bs
    ensures forall k :: 0 <= k < |bs| && Field(bs[k], c) == v ==> bs[k] in r
  {
    if |bs| == 0 then []
    else
      var front := bs[..|bs| - 1];
      var last := bs[|bs| - 1];
      assert forall k :: 0 <= k < |front| ==> front[k] == bs[k];
      Matching(front, c, v) + (if Field(last, c) == v then [last] else [])
  }

  /** Filtering distributes over concatenation, so the matches keep the
      relative order of the input. */
  lemma {:induction false} MatchingConcat(a: seq<Book>, b: seq<Book>, c: Column, v: string)
    ensures Matching(a + b, c, v) == Matching(a, c, v) + Matching(b, c, v)
    decreases |b|
  {
    if |b| == 0 {
      assert a + b == a;
    } else {
      var b' := b[..|b| - 1];
      assert (a + b)[..|a + b| - 1] == a + b';
      MatchingConcat(a, b', c, v);
    }
  }

  /** Some entry's column `c` reads `v`. */
  predicate Occurs(bs: seq<Book>, c: Column, v: string) {
    exists k :: 0 <= k < |bs| && Field(bs[k], c) == v
  }

  /** There are no matches exactly when nothing reads `v`. */
  lemma {:induction false} MatchingEmpty(bs: seq<Book>, c: Column, v: string)
    ensures |Matching(bs, c, v)| == 0 <==> !Occurs(bs, c, v)
  {
    var m := Matching(bs, c, v);
    if |m| > 0 {
      var k :| 0 <= k < |bs| && bs[k] == m[0];
    }
  }

  /** The shared shape of `authors_books` and `year_books`: the matching
      books, or `None` rather than an empty list when there are none. */
  function BooksWhere(s: Store, c: Column, v: string): (r: Option<seq<Book>>)
    ensures r.None? <==> forall i :: 0 <= i < |s.records| ==> Field(s.records[i].book, c) != v
    ensures r.Some? ==> r.value == Matching(Values(s), c, v) && |r.value| > 0
  {
    var found := Matching(Values(s), c, v);
    MatchingEmpty(Values(s), c, v);
    if |found| == 0 then None else Some(found)
  }

  /** `authors_books`. */
  function AuthorsBooks(s: Store, author: string): (r: Option<seq<Book>>)
    ensures r.None? <==> forall i :: 0 <= i < |s.records| ==> s.records[i].book.author != author
    ensures r.Some? ==> r.value == Matching(Values(s), Author, author) && |r.value| > 0
  {
    BooksWhere(s, Author, author)
  }

  /** `year_books`. */
  function YearBooks(s: Store, year: string): (r: Option<seq<Book>>)
    ensures r.None? <==> forall i :: 0 <= i < |s.records| ==> s.records[i].book.year != year
    ensures r.Some? ==> r.value == Matching(Values(s), Year, year) && |r.value| > 0
  {
    BooksWhere(s, Year, year)
  }

  // ---------------------------------------------------------------------
  // Copy-weighted grouping

  /** One entry of the `ganres` / `years` dictionaries: a column value and
      the copies summed over the books that carry it. */
  datatype Group = Group(key: string, weight: int)

  function Weight(g: Group): int {
    g.weight
  }

  /** Where `key` sits among the groups, or `|g|` when it is not there. */
  function KeyIndex(g: seq<Group>, key: string): (i: nat)
    ensures i <= |g|
    ensures i < |g| ==> g[i].key == key
  {
    if |g| == 0 then 0
    else if g[0].key == key then 0
    else 1 + KeyIndex(g[1..], key)
  }

  /** No group before `KeyIndex(g, key)` carries `key`. */
  lemma {:induction false} KeyIndexFirst(g: seq<Group>, key: string, t: nat)
    requires t < |g| && g[t].key == key
    ensures KeyIndex(g, key) <= t
    decreases t
  {
    if t > 0 && g[0].key != key {
      KeyIndexFirst(g[1..], key, t - 1);
    }
  }

  /** Where `v` first appears in column `c`, or `|bs|` if it never does. */
  function FirstOccurrence(bs: seq<Book>, c: Column, v: string): (r: nat)
    ensures r <= |bs|
    ensures r < |bs| ==> Field(bs[r], c) == v
  {
    if |bs| == 0 then 0
    else if Field(bs[0], c) == v then 0
    else 1 + FirstOccurrence(bs[1..], c, v)
  }

  /** No book before `FirstOccurrence(bs, c, v)` carries `v`. */
  lemma {:induction false} FirstOccurrenceFirst(bs: seq<Book>, c: Column, v: string, k: nat)
    requires k < |bs| && Field(bs[k], c) == v
    ensures FirstOccurrence(bs, c, v) <= k
    decreases k
  {
    if k > 0 && Field(bs[0], c) != v {
      FirstOccurrenceFirst(bs[1..], c, v, k - 1);
    }
  }

  /** First occurrences are unchanged by appending a book, except for a
      value seen for the first time in that book. */
  lemma {:induction false} FirstOccurrenceSnoc(bs: seq<Book>, x: Book, c: Column, v: string)
    ensures FirstOccurrence(bs, c, v) < |bs| ==> FirstOccurrence(bs + [x], c, v) == FirstOccurrence(bs, c, v)
    ensures FirstOccurrence(bs, c, v) == |bs| && Field(x, c) == v ==> FirstOccurrence(bs + [x], c, v) == |bs|
    decreases |bs|
  {
    if |bs| > 0 && Field(bs[0], c) != v {
      assert (bs + [x])[1..] == bs[1..] + [x];
      FirstOccurrenceSnoc(bs[1..], x, c, v);
    }
  }

  /** The copies held of books whose column `c` reads `v`: the reference
      meaning of a group's weight. */
  function CopiesOf(bs: seq<Book>, c: Column, v: string): int {
    if |bs| == 0 then 0
    else CopiesOf(bs[..|bs| - 1], c, v) + (if Field(bs[|bs| - 1], c) == v then bs[|bs| - 1].amount else 0)
  }

  /** The copies of `v` are the copies held by the books the filter for `v`
      keeps. */
  lemma {:induction false} CopiesOfMatching(bs: seq<Book>, c: Column, v: string)
    ensures CopiesOf(bs, c, v) == Sum(Matching(bs, c, v), Amount)
    decreases |bs|
  {
    if |bs| > 0 {
      var front := bs[..|bs| - 1];
      var last := bs[|bs| - 1];
      CopiesOfMatching(front, c, v);
      var m := Matching(front, c, v);
      if Field(last, c) == v {
        assert (m + [last])[..|m|] == m;
      } else {
        assert m + [] == m;
      }
    }
  }

  /** A value that does not occur carries no copies. */
  lemma {:induction false} CopiesOfAbsent(bs: seq<Book>, c: Column, v: string)
    requires !Occurs(bs, c, v)
    ensures CopiesOf(bs, c, v) == 0
    decreases |bs|
  {
    if |bs| > 0 {
      var front := bs[..|bs| - 1];
      assert !Occurs(front, c, v) by {
        forall k | 0 <= k < |front|
          ensures Field(front[k], c) != v
        {
          assert front[k] == bs[k];
        }
      }
      assert Field(bs[|bs| - 1], c) != v;
      CopiesOfAbsent(front, c, v);
    }
  }

  /** One loop step `counts[key] += w`, or `counts[key] = w` for a key not
      yet seen, on an insertion-ordered dictionary. */
  function Tally(g: seq<Group>, key: string, w: int): seq<Group> {
    var i := KeyIndex(g, key);
    if i < |g| then g[i := Group(key, g[i].weight + w)] else g + [Group(key, w)]
  }

  /** The accumulation loop `for value in books.values(): counts[key] += amount`. */
  function Groups(bs: seq<Book>, c: Column): seq<Group> {
    if |bs| == 0 then []
    else Tally(Groups(bs[..|bs| - 1], c), Field(bs[|bs| - 1], c), bs[|bs| - 1].amount)
  }

  /** Every key of `g` occurs in column `c` of `bs`. */
  predicate KeysOccur(g: seq<Group>, bs: seq<Book>, c: Column) {
    forall i :: 0 <= i < |g| ==> FirstOccurrence(bs, c, g[i].key) < |bs|
  }

  /** Every value in column `c` of `bs` is a key of `g`. */
  predicate KeysCover(g: seq<Group>, bs: seq<Book>, c: Column) {
    forall k :: 0 <= k < |bs| ==> KeyIndex(g, Field(bs[k], c)) < |g|
  }

  /** The keys of `g` appear in strictly increasing order of their first
      occurrence in column `c` (hence each once). */
  predicate KeysOrdered(g: seq<Group>, bs: seq<Book>, c: Column) {
    forall i, j :: 0 <= i < j < |g| ==> FirstOccurrence(bs, c, g[i].key) < FirstOccurrence(bs, c, g[j].key)
  }

  /** The keys of `g` are exactly the values occurring in column `c` of
      `bs`, listed in order of first occurrence. */
  predicate KeysInOrder(g: seq<Group>, bs: seq<Book>, c: Column) {
    KeysOccur(g, bs, c) && KeysCover(g, bs, c) && KeysOrdered(g, bs, c)
  }

  /** Each group weighs the copies held of the books carrying its key. */
  predicate WeightsAreCopies(g: seq<Group>, bs: seq<Book>, c: Column) {
    forall i :: 0 <= i < |g| ==> g[i].weight == CopiesOf(bs, c, g[i].key)
  }

  predicate DistinctKeys(g: seq<Group>) {
    forall i, j :: 0 <= i < j < |g| ==> g[i].key != g[j].key
  }

  /** Keys in order of first occurrence are distinct. */
  lemma {:induction false} KeysOrderedDistinct(g: seq<Group>, bs: seq<Book>, c: Column)
    requires KeysOrdered(g, bs, c)
    ensures DistinctKeys(g)
  {
    forall i, j | 0 <= i < j < |g|
      ensures g[i].key != g[j].key
    {
      assert FirstOccurrence(bs, c, g[i].key) < FirstOccurrence(bs, c, g[j].key);
    }
  }

  /** A value the keys do not cover does not occur in the column, so no
      copies carry it. */
  lemma {:induction false} NotAKey(g: seq<Group>, bs: seq<Book>, c: Column, v: string)
    requires KeysCover(g, bs, c)
    requires KeyIndex(g, v) == |g|
    ensures FirstOccurrence(bs, c, v) == |bs|
    ensures CopiesOf(bs, c, v) == 0
  {
    CopiesOfAbsent(bs, c, v);
  }

  /** Keys carried over from `gp`, plus one carrying the new book's value,
      cover the grown catalogue. */
  lemma {:induction false} KeysCoverSnoc(gp: seq<Group>, g: seq<Group>, p: seq<Book>, x: Book, c: Column, t: nat)
    requires KeysCover(gp, p, c)
    requires |gp| <= |g| && forall i :: 0 <= i < |gp| ==> g[i].key == gp[i].key
    requires t < |g| && g[t].key == Field(x, c)
    ensures KeysCover(g, p + [x], c)
  {
    var bs := p + [x];
    forall k | 0 <= k < |bs|
      ensures KeyIndex(g, Field(bs[k], c)) < |g|
    {
      if k < |p| {
        assert bs[k] == p[k];
        var u := KeyIndex(gp, Field(p[k], c));
        assert g[u].key == Field(bs[k], c);
        KeyIndexFirst(g, Field(bs[k], c), u);
      } else {
        KeyIndexFirst(g, Field(bs[k], c), t);
      }
    }
  }

  /** Merging into an existing key keeps the keys in order. */
  lemma {:induction false} TallyKeysExisting(gp: seq<Group>, p: seq<Book>, x: Book, c: Column, v: string, w: int)
    requires KeysInOrder(gp, p, c)
    requires Field(x, c) == v && KeyIndex(gp, v) < |gp|
    ensures KeysInOrder(gp[KeyIndex(gp, v) := Group(v, w)], p + [x], c)
  {
    var m := KeyIndex(gp, v);
    var g := gp[m := Group(v, w)];
    var bs := p + [x];
    assert forall i :: 0 <= i < |g| ==> g[i].key == gp[i].key;
    forall i | 0 <= i < |g|
      ensures FirstOccurrence(bs, c, g[i].key) == FirstOccurrence(p, c, gp[i].key) < |p|
    {
      FirstOccurrenceSnoc(p, x, c, gp[i].key);
    }
    KeysCoverSnoc(gp, g, p, x, c, m);
  }

  /** A key seen for the first time, placed last, comes after every earlier
      key in order of first occurrence. */
  lemma {:induction false} KeysOrderedSnoc(gp: seq<Group>, p: seq<Book>, x: Book, c: Column, v: string, w: int)
    requires KeysOccur(gp, p, c) && KeysOrdered(gp, p, c)
    requires Field(x, c) == v && FirstOccurrence(p, c, v) == |p|
    ensures KeysOccur(gp + [Group(v, w)], p + [x], c) && KeysOrdered(gp + [Group(v, w)], p + [x], c)
  {
    var g := gp + [Group(v, w)];
    var bs := p + [x];
    FirstOccurrenceSnoc(p, x, c, v);
    assert FirstOccurrence(bs, c, g[|gp|].key) == |p|;
    forall i | 0 <= i < |gp|
      ensures FirstOccurrence(bs, c, g[i].key) == FirstOccurrence(p, c, gp[i].key) < |p|
    {
      FirstOccurrenceSnoc(p, x, c, gp[i].key);
    }
  }

  /** A key seen for the first time goes last, keeping the keys in order. */
  lemma {:induction false} TallyKeysNew(gp: seq<Group>, p: seq<Book>, x: Book, c: Column, v: string, w: int)
    requires KeysInOrder(gp, p, c)
    requires Field(x, c) == v && KeyIndex(gp, v) == |gp|
    ensures KeysInOrder(gp + [Group(v, w)], p + [x], c)
  {
    var g := gp + [Group(v, w)];
    NotAKey(gp, p, c, v);
    KeysOrderedSnoc(gp, p, x, c, v, w);
    KeysCoverSnoc(gp, g, p, x, c, |gp|);
  }

  /** One tally step keeps the keys in order of first occurrence. */
  lemma {:induction false} TallyKeys(gp: seq<Group>, p: seq<Book>, x: Book, c: Column)
    requires KeysInOrder(gp, p, c)
    ensures KeysInOrder(Tally(gp, Field(x, c), x.amount), p + [x], c)
  {
    var v := Field(x, c);
    var m := KeyIndex(gp, v);
    var g := Tally(gp, v, x.amount);
    if m < |gp| {
      assert g == gp[m := Group(v, gp[m].weight + x.amount)];
      TallyKeysExisting(gp, p, x, c, v, gp[m].weight + x.amount);
    } else {
      assert g == gp + [Group(v, x.amount)];
      TallyKeysNew(gp, p, x, c, v, x.amount);
    }
  }

  /** The keys of the grouping are the column's values in order of first
      occurrence. */
  lemma {:induction false} GroupsKeys(bs: seq<Book>, c: Column)
    ensures KeysInOrder(Groups(bs, c), bs, c)
    decreases |bs|
  {
    if |bs| > 0 {
      var p := bs[..|bs| - 1];
      var x := bs[|bs| - 1];
      assert bs == p + [x];
      GroupsKeys(p, c);
      TallyKeys(Groups(p, c), p, x, c);
    }
  }

  /** Appending a book adds its copies to its own value's count only. */
  lemma {:induction false} CopiesOfSnoc(bs: seq<Book>, x: Book, c: Column, v: string)
    ensures CopiesOf(bs + [x], c, v) == CopiesOf(bs, c, v) + (if Field(x, c) == v then x.amount else 0)
  {
    assert (bs + [x])[..|bs|] == bs;
  }

  /** Merging into an existing key keeps every weight equal to its copies. */
  lemma {:induction false} TallyWeightsExisting(gp: seq<Group>, p: seq<Book>, x: Book, c: Column, v: string)
    requires DistinctKeys(gp) && WeightsAreCopies(gp, p, c)
    requires Field(x, c) == v && KeyIndex(gp, v) < |gp|
    ensures var m := KeyIndex(gp, v);
      WeightsAreCopies(gp[m := Group(v, gp[m].weight + x.amount)], p + [x], c)
  {
    var m := KeyIndex(gp, v);
    var g := gp[m := Group(v, gp[m].weight + x.amount)];
    forall i | 0 <= i < |g|
      ensures g[i].weight == CopiesOf(p + [x], c, g[i].key)
    {
      CopiesOfSnoc(p, x, c, gp[i].key);
    }
  }

  /** A key seen for the first time weighs exactly the new book's copies. */
  lemma {:induction false} TallyWeightsNew(gp: seq<Group>, p: seq<Book>, x: Book, c: Column, v: string)
    requires WeightsAreCopies(gp, p, c)
    requires Field(x, c) == v && KeyIndex(gp, v) == |gp|
    requires CopiesOf(p, c, v) == 0
    ensures WeightsAreCopies(gp + [Group(v, x.amount)], p + [x], c)
  {
    var g := gp + [Group(v, x.amount)];
    forall i | 0 <= i < |g|
      ensures g[i].weight == CopiesOf(p + [x], c, g[i].key)
    {
      CopiesOfSnoc(p, x, c, g[i].key);
      if i < |gp| {
        assert g[i] == gp[i];
        if gp[i].key == v {
          KeyIndexFirst(gp, v, i);
        }
      }
    }
  }

  /** One tally step keeps every weight equal to the copies of its key. */
  lemma {:induction false} TallyWeights(gp: seq<Group>, p: seq<Book>, x: Book, c: Column)
    requires DistinctKeys(gp) && WeightsAreCopies(gp, p, c)
    requires KeyIndex(gp, Field(x, c)) == |gp| ==> CopiesOf(p, c, Field(x, c)) == 0
    ensures WeightsAreCopies(Tally(gp, Field(x, c), x.amount), p + [x], c)
  {
    var v := Field(x, c);
    if KeyIndex(gp, v) < |gp| {
      TallyWeightsExisting(gp, p, x, c, v);
    } else {
      TallyWeightsNew(gp, p, x, c, v);
    }
  }

  /** Each group's weight is the copies held of books carrying its key. */
  lemma {:induction false} GroupsWeights(bs: seq<Book>, c: Column)
    ensures WeightsAreCopies(Groups(bs, c), bs, c)
    decreases |bs|
  {
    if |bs| > 0 {
      var p := bs[..|bs| - 1];
      var x := bs[|bs| - 1];
      var gp := Groups(p, c);
      assert bs == p + [x];
      GroupsWeights(p, c);
      GroupsKeys(p, c);
      KeysOrderedDistinct(gp, p, c);
      if KeyIndex(gp, Field(x, c)) == |gp| {
        NotAKey(gp, p, c, Field(x, c));
      }
      TallyWeights(gp, p, x, c);
    }
  }

  /** Tallying adds exactly the tallied weight to the sum of all weights. */
  lemma {:induction false} TallySum(g: seq<Group>, key: string, w: int)
    ensures Sum(Tally(g, key, w), Weight) == Sum(g, Weight) + w
  {
    var m := KeyIndex(g, key);
    if m < |g| {
      SumUpdate(g, m, Group(key, g[m].weight + w), Weight);
    } else {
      var r := g + [Group(key, w)];
      assert r[..|r| - 1] == g;
    }
  }

  /** The groups' weights add up to the copies held in all. */
  lemma {:induction false} GroupsSum(bs: seq<Book>, c: Column)
    ensures Sum(Groups(bs, c), Weight) == Sum(bs, Amount)
    decreases |bs|
  {
    if |bs| > 0 {
      GroupsSum(bs[..|bs| - 1], c);
      TallySum(Groups(bs[..|bs| - 1], c), Field(bs[|bs| - 1], c), bs[|bs| - 1].amount);
    }
  }

  /** The chart data of menu items 10 and 11, and the first half of
      `most_popular_ganre`: one entry per distinct value of column `c`, in
      order of first occurrence, weighing the copies that carry it; the
      weights add up to the catalogue's total. */
  function WeightedCounts(s: Store, c: Column): (g: seq<Group>)
    ensures KeysInOrder(g, Values(s), c)
    ensures WeightsAreCopies(g, Values(s), c)
    ensures Sum(g, Weight) == TotalAmount(s)
  {
    GroupsKeys(Values(s), c);
    GroupsWeights(Values(s), c);
    GroupsSum(Values(s), c);
    Groups(Values(s), c)
  }

  // ---------------------------------------------------------------------
  // most_popular_ganre

  /** `max(counts.values())`. */
  function MaxWeight(g: seq<Group>): (m: int)
    requires |g| > 0
    ensures forall i :: 0 <= i < |g| ==> g[i].weight <= m
    ensures exists i :: 0 <= i < |g| && g[i].weight == m
  {
    if |g| == 1 then g[0].weight
    else
      var m := MaxWeight(g[..|g| - 1]);
      assert forall i :: 0 <= i < |g| - 1 ==> g[..|g| - 1][i] == g[i];
      if g[|g| - 1].weight > m then g[|g| - 1].weight else m
  }

  /** `[key for key, value in counts.items() if value == m]`. */
  function KeysWeighing(g: seq<Group>, m: int): seq<string> {
    if |g| == 0 then []
    else KeysWeighing(g[..|g| - 1], m) + (if g[|g| - 1].weight == m then [g[|g| - 1].key] else [])
  }

  /** The selected keys are exactly the keys of groups weighing `m`. */
  lemma {:induction false} KeysWeighingMembers(g: seq<Group>, m: int, v: string)
    ensures v in KeysWeighing(g, m) <==> exists i :: 0 <= i < |g| && g[i].key == v && g[i].weight == m
    decreases |g|
  {
    if |g| > 0 {
      var front := g[..|g| - 1];
      KeysWeighingMembers(front, m, v);
      if exists i :: 0 <= i < |front| && front[i].key == v && front[i].weight == m {
        var i :| 0 <= i < |front| && front[i].key == v && front[i].weight == m;
        assert g[i] == front[i];
      }
      if exists i :: 0 <= i < |g| && g[i].key == v && g[i].weight == m {
        var i :| 0 <= i < |g| && g[i].key == v && g[i].weight == m;
        if i < |front| {
          assert g[i] == front[i];
        }
      }
    }
  }

  /** `keys` lists its values in strictly increasing order of first
      occurrence in column `c` (hence each value once). */
  predicate InFirstOccurrenceOrder(keys: seq<string>, bs: seq<Book>, c: Column) {
    forall i, j :: 0 <= i < j < |keys| ==> FirstOccurrence(bs, c, keys[i]) < FirstOccurrence(bs, c, keys[j])
  }

  /** Selected keys come no later than the groups they were selected from. */
  lemma {:induction false} KeysWeighingBelow(g: seq<Group>, m: int, bs: seq<Book>, c: Column, bound: int)
    requires forall i :: 0 <= i < |g| ==> FirstOccurrence(bs, c, g[i].key) < bound
    ensures forall k :: 0 <= k < |KeysWeighing(g, m)| ==> FirstOccurrence(bs, c, KeysWeighing(g, m)[k]) < bound
    decreases |g|
  {
    if |g| > 0 {
      var front := g[..|g| - 1];
      assert forall i :: 0 <= i < |front| ==> front[i] == g[i];
      KeysWeighingBelow(front, m, bs, c, bound);
    }
  }

  /** Selecting keys keeps them in the order of their first occurrence. */
  lemma {:induction false} KeysWeighingOrdered(g: seq<Group>, m: int, bs: seq<Book>, c: Column)
    requires KeysOrdered(g, bs, c)
    ensures InFirstOccurrenceOrder(KeysWeighing(g, m), bs, c)
    decreases |g|
  {
    if |g| > 0 {
      var front := g[..|g| - 1];
      var last := g[|g| - 1];
      assert forall i :: 0 <= i < |front| ==> front[i] == g[i];
      KeysWeighingOrdered(front, m, bs, c);
      var bound := FirstOccurrence(bs, c, last.key);
      KeysWeighingBelow(front, m, bs, c, bound);
      var ks := KeysWeighing(front, m);
      if last.weight == m {
        var r := ks + [last.key];
        assert KeysWeighing(g, m) == r;
        forall i, j | 0 <= i < j < |r|
          ensures FirstOccurrence(bs, c, r[i]) < FirstOccurrence(bs, c, r[j])
        {
          assert r[i] == ks[i];
          if j < |ks| {
            assert r[j] == ks[j];
          }
        }
      } else {
        assert KeysWeighing(g, m) == ks;
      }
    }
  }

  /** `v` occurs in column `c` and no other value there outweighs it. */
  predicate IsTop(bs: seq<Book>, c: Column, v: string) {
    && Occurs(bs, c, v)
    && forall k :: 0 <= k < |bs| ==> CopiesOf(bs, c, Field(bs[k], c)) <= CopiesOf(bs, c, v)
  }

  /** Every key reaching the maximum weight is a top value. */
  lemma {:induction false} TopKeySound(g: seq<Group>, bs: seq<Book>, c: Column, v: string)
    requires KeysOccur(g, bs, c) && KeysCover(g, bs, c) && WeightsAreCopies(g, bs, c) && |g| > 0
    requires v in KeysWeighing(g, MaxWeight(g))
    ensures IsTop(bs, c, v)
  {
    KeysWeighingMembers(g, MaxWeight(g), v);
    var i :| 0 <= i < |g| && g[i].key == v && g[i].weight == MaxWeight(g);
    assert Field(bs[FirstOccurrence(bs, c, v)], c) == v;
    forall q | 0 <= q < |bs|
      ensures CopiesOf(bs, c, Field(bs[q], c)) <= CopiesOf(bs, c, v)
    {
      var t := KeyIndex(g, Field(bs[q], c));
      assert g[t].weight <= g[i].weight;
    }
  }

  /** Every top value is a key reaching the maximum weight. */
  lemma {:induction false} TopKeyComplete(g: seq<Group>, bs: seq<Book>, c: Column, v: string)
    requires KeysOccur(g, bs, c) && KeysCover(g, bs, c) && WeightsAreCopies(g, bs, c) && |g| > 0
    requires IsTop(bs, c, v)
    ensures v in KeysWeighing(g, MaxWeight(g))
  {
    var m := MaxWeight(g);
    var q :| 0 <= q < |bs| && Field(bs[q], c) == v;
    var i := KeyIndex(g, v);
    assert i < |g| by {
      assert KeyIndex(g, Field(bs[q], c)) < |g|;
    }
    var t :| 0 <= t < |g| && g[t].weight == m;
    var q' := FirstOccurrence(bs, c, g[t].key);
    assert CopiesOf(bs, c, Field(bs[q'], c)) <= CopiesOf(bs, c, v);
    assert g[i].weight == m;
    KeysWeighingMembers(g, m, v);
  }

  /** The top keys are exactly the top values of the column. */
  lemma {:induction false} TopKeys(g: seq<Group>, bs: seq<Book>, c: Column)
    requires KeysOccur(g, bs, c) && KeysCover(g, bs, c) && WeightsAreCopies(g, bs, c) && |g| > 0
    ensures forall v :: v in KeysWeighing(g, MaxWeight(g)) <==> IsTop(bs, c, v)
  {
    forall v
      ensures v in KeysWeighing(g, MaxWeight(g)) <==> IsTop(bs, c, v)
    {
      if v in KeysWeighing(g, MaxWeight(g)) {
        TopKeySound(g, bs, c, v);
      }
      if IsTop(bs, c, v) {
        TopKeyComplete(g, bs, c, v);
      }
    }
  }

  /** Some key reaches the maximum weight. */
  lemma {:induction false} TopKeysNonEmpty(g: seq<Group>)
    requires |g| > 0
    ensures |KeysWeighing(g, MaxWeight(g))| > 0
  {
    var t :| 0 <= t < |g| && g[t].weight == MaxWeight(g);
    KeysWeighingMembers(g, MaxWeight(g), g[t].key);
  }

  /** `most_popular_ganre` before the final join: every genre whose copies
      reach the maximum, in order of first occurrence; an empty catalogue
      raises, as `max()` of an empty sequence does. */
  function MostPopularGanres(s: Store): (r: Result<seq<string>, Error>)
    ensures r.Failure? <==> |s.records| == 0
    ensures r.Failure? ==> r.error == EmptyCatalogue
    ensures r.Success? ==> |r.value| > 0
    ensures r.Success? ==> forall v :: v in r.value <==> IsTop(Values(s), Ganre, v)
    ensures r.Success? ==> InFirstOccurrenceOrder(r.value, Values(s), Ganre)
  {
    if |s.records| == 0 then Failure(EmptyCatalogue)
    else
      var bs := Values(s);
      var g := WeightedCounts(s, Ganre);
      assert |g| > 0 by {
        assert KeyIndex(g, Field(bs[0], Ganre)) < |g|;
      }
      TopKeys(g, bs, Ganre);
      TopKeysNonEmpty(g);
      KeysWeighingOrdered(g, MaxWeight(g), bs, Ganre);
      Success(KeysWeighing(g, MaxWeight(g)))
  }

  /** `most_popular_ganre`: the top genres joined with `", "`. */
  function MostPopularGanre(s: Store): (r: Result<string, Error>)
    ensures r.Failure? <==> |s.records| == 0
    ensures r.Failure? ==> r.error == EmptyCatalogue
    ensures r.Success? ==> r.value == Text.Join(MostPopularGanres(s).value, ", ")
  {
    var top :- MostPopularGanres(s);
    Success(Text.Join(top, ", "))
  }
}
