/** The menu loop of `main` as far as it changes the catalogue: items 1
    (add), 2 (edit) and 3 (remove), read as text. A command that raises
    leaves the catalogue as it was, since the loop catches the error and
    carries on. */
module Session {
  import opened Wrappers
  import opened Text
  import opened Books
  import opened Catalogue
  import opened Editing

  /** One mutating menu choice with the text the user typed for it. */
  datatype Command =
    | AddCmd(title: string, author: string, year: string, ganre: string, amountText: string)
    | EditCmd(idText: string, field: string, value: string)
    | RemoveCmd(title: string)

  /** One command. Add converts the amount with `int()` before anything is
      stored; edit converts the id first, then dispatches on the field. */
  function Step(s: Store, cmd: Command): (r: Result<Store, Error>)
    ensures cmd.AddCmd? && ParseInt(cmd.amountText).None? ==> r == Failure(NotAnInteger(cmd.amountText))
    ensures cmd.AddCmd? && ParseInt(cmd.amountText).Some? ==>
      r == Success(AddBook(s, Book(cmd.title, cmd.author, cmd.year, cmd.ganre, ParseInt(cmd.amountText).value)))
    ensures cmd.EditCmd? && ParseInt(cmd.idText).None? ==> r == Failure(NotAnInteger(cmd.idText))
    ensures cmd.EditCmd? && ParseInt(cmd.idText).Some? ==>
      r == EditField(s, ParseInt(cmd.idText).value, cmd.field, cmd.value)
    ensures cmd.RemoveCmd? ==> r == RemoveBook(s, cmd.title)
    ensures r.Success? ==> s.nextId <= r.value.nextId && Ids(r.value) <= Ids(s) + {s.nextId}
    ensures r.Success? && Valid(s) ==> Valid(r.value)
  {
    match cmd
    case AddCmd(title, author, year, ganre, amountText) =>
      var n :- ParseInt(amountText).ToResult(NotAnInteger(amountText));
      Success(AddBook(s, Book(title, author, year, ganre, n)))
    case EditCmd(idText, field, value) =>
      var id :- ParseInt(idText).ToResult(NotAnInteger(idText));
      EditField(s, id, field, value)
    case RemoveCmd(title) =>
      RemoveBook(s, title)
  }

  /** The catalogue after one command: unchanged when the command raised. */
  function Apply(s: Store, cmd: Command): (r: Store)
    ensures Step(s, cmd).Failure? ==> r == s
    ensures Step(s, cmd).Success? ==> r == Step(s, cmd).value
    ensures Valid(s) ==> Valid(r)
    ensures s.nextId <= r.nextId
    ensures Ids(r) <= Ids(s) + {s.nextId}
  {
    match Step(s, cmd)
    case Success(t) => t
    case Failure(_) => s
  }

  /** The catalogue after a whole session of commands, in order. */
  function Run(s: Store, cmds: seq<Command>): (r: Store)
    ensures Valid(s) ==> Valid(r)
    ensures s.nextId <= r.nextId
    decreases |cmds|
  {
    if |cmds| == 0 then s else Run(Apply(s, cmds[0]), cmds[1..])
  }

  /** An id that was handed out and later deleted is never stored again,
      whatever commands follow: the counter is never wound back. */
  lemma {:induction false} NeverReused(s: Store, cmds: seq<Command>, id: nat)
    requires id < s.nextId && id !in Ids(s)
    ensures id !in Ids(Run(s, cmds))
    decreases |cmds|
  {
    if |cmds| > 0 {
      NeverReused(Apply(s, cmds[0]), cmds[1..], id);
    }
  }

  /** A session that only removes titles never moves the counter. */
  lemma {:induction false} RemovalsKeepCounter(s: Store, cmds: seq<Command>)
    requires forall i :: 0 <= i < |cmds| ==> cmds[i].RemoveCmd?
    ensures Run(s, cmds).nextId == s.nextId
    decreases |cmds|
  {
    if |cmds| > 0 {
      RemovalsKeepCounter(Apply(s, cmds[0]), cmds[1..]);
    }
  }
}
