/**
 * The thread repository: an in-memory `threads` table, rows of an
 * autoincrement id and a subject.
 */
module ThreadStore {
  datatype Thread = Thread(id: nat, subject: string)

  /**
   * The autoincrement key: every id is nonzero and below the counter, and
   * ids grow in table order, so no two rows share one.
   */
  ghost predicate TableValid(rows: seq<Thread>, autoIncrement: nat) {
    && autoIncrement > 0
    && (forall i :: 0 <= i < |rows| ==> 0 < rows[i].id < autoIncrement)
    && (forall i, j :: 0 <= i < j < |rows| ==> rows[i].id < rows[j].id)
  }

  /**
   * `SELECT id FROM threads WHERE subject = ?` cast to an integer: the id of
   * a row with that subject, or 0 (the cast of "no row") when there is none.
   */
  function FindId(rows: seq<Thread>, subject: string): (id: nat)
    requires forall i :: 0 <= i < |rows| ==> rows[i].id > 0
    ensures id == 0 <==> forall i :: 0 <= i < |rows| ==> rows[i].subject != subject
    ensures id != 0 ==> exists i :: 0 <= i < |rows| && rows[i].id == id && rows[i].subject == subject
  {
    if rows == [] then 0
    else if rows[0].subject == subject then rows[0].id
    else
      var id := FindId(rows[1..], subject);
      assert forall i :: 0 <= i < |rows[1..]| ==> rows[1..][i] == rows[i + 1];
      id
  }

  class DbThreadRepository {
    /** The rows of the `threads` table, in table order. */
    var rows: seq<Thread>
    /** The next value of the autoincrement column. */
    var autoIncrement: nat

    ghost predicate Valid()
      reads this
    {
      TableValid(rows, autoIncrement)
    }

    constructor ()
      ensures Valid() && rows == []
    {
      rows := [];
      autoIncrement := 1;
    }

    /** The id of a thread with this subject, or 0 when there is none. */
    function FindBySubject(subject: string): (id: nat)
      reads this
      requires Valid()
      ensures id == 0 <==> forall i :: 0 <= i < |rows| ==> rows[i].subject != subject
      ensures id != 0 ==> exists i :: 0 <= i < |rows| && rows[i].id == id && rows[i].subject == subject
    {
      FindId(rows, subject)
    }

    /**
     * Inserts a thread row and returns its autoincrement id. Existing subjects
     * are not checked.
     */
    method Create(subject: string) returns (id: nat)
      requires Valid()
      modifies this
      ensures Valid()
      ensures rows == old(rows) + [Thread(id, subject)]
      ensures id == old(autoIncrement) && autoIncrement == old(autoIncrement) + 1
      ensures id > 0 && forall i :: 0 <= i < |old(rows)| ==> old(rows)[i].id != id
      ensures FindBySubject(subject) != 0
    {
      id := autoIncrement;
      rows := rows + [Thread(id, subject)];
      autoIncrement := autoIncrement + 1;
      assert rows[|rows| - 1].subject == subject;
    }
  }

  /**
   * Creating the same subject twice appends two rows with that subject and
   * distinct ids: nothing stops a second thread with an existing subject.
   */
  method CreateTwice(repository: DbThreadRepository, subject: string) returns (first: nat, second: nat)
    requires repository.Valid()
    modifies repository
    ensures repository.Valid() && first != second
    ensures repository.rows == old(repository.rows) + [Thread(first, subject), Thread(second, subject)]
  {
    first := repository.Create(subject);
    second := repository.Create(subject);
  }
}
