/**
 * The `emails` table: one row per stored email, and the queries the
 * repository runs against it (`COUNT(id) ... WHERE id = ?`,
 * `COUNT(id) ... WHERE threadId = ?`, `WHERE threadId = ? ORDER BY date`).
 */
module Emails {
  import opened Wrappers

  /** One row of the `emails` table. Dates are abstract totally ordered values. */
  datatype Email = Email(
    id: string,
    subject: string,
    content: string,
    originalContent: string,
    threadId: int,
    date: int,
    fromEmail: Option<string>,
    fromName: Option<string>,
    imapId: Option<string>,
    inReplyTo: Option<string>)

  /** `id` is the primary key: no two rows share it. */
  ghost predicate UniqueIds(rows: seq<Email>) {
    forall i, j :: 0 <= i < j < |rows| ==> rows[i].id != rows[j].id
  }

  ghost function RowsWithId(rows: seq<Email>, id: string): set<int> {
    set i | 0 <= i < |rows| && rows[i].id == id
  }

  ghost function RowsInThread(rows: seq<Email>, threadId: int): set<int> {
    set i | 0 <= i < |rows| && rows[i].threadId == threadId
  }

  /** `SELECT COUNT(id) FROM emails WHERE id = ?` */
  function CountWithId(rows: seq<Email>, id: string): (n: nat)
    ensures n == |RowsWithId(rows, id)|
  {
    if rows == [] then 0
    else
      var init := rows[..|rows| - 1];
      assert RowsWithId(rows, id) ==
        RowsWithId(init, id) + (if rows[|rows| - 1].id == id then {|rows| - 1} else {});
      CountWithId(init, id) + (if rows[|rows| - 1].id == id then 1 else 0)
  }

  /** `SELECT COUNT(id) FROM emails WHERE threadId = ?` */
  function CountInThread(rows: seq<Email>, threadId: int): (n: nat)
    ensures n == |RowsInThread(rows, threadId)|
  {
    if rows == [] then 0
    else
      var init := rows[..|rows| - 1];
      assert RowsInThread(rows, threadId) ==
        RowsInThread(init, threadId) + (if rows[|rows| - 1].threadId == threadId then {|rows| - 1} else {});
      CountInThread(init, threadId) + (if rows[|rows| - 1].threadId == threadId then 1 else 0)
  }

  /** The repository's existence test: the id count is positive. */
  function ContainsId(rows: seq<Email>, id: string): (r: bool)
    ensures r <==> exists i :: 0 <= i < |rows| && rows[i].id == id
  {
    var n := CountWithId(rows, id);
    assert n > 0 ==> exists i :: i in RowsWithId(rows, id) by {
      if n > 0 {
        var i :| i in RowsWithId(rows, id);
      }
    }
    assert (exists i :: 0 <= i < |rows| && rows[i].id == id) ==> n > 0 by {
      if exists i :: 0 <= i < |rows| && rows[i].id == id {
        var i :| 0 <= i < |rows| && rows[i].id == id;
        assert i in RowsWithId(rows, id);
      }
    }
    n > 0
  }

  /** Under the primary key an id is counted at most once. */
  lemma {:induction false} CountWithIdAtMostOne(rows: seq<Email>, id: string)
    requires UniqueIds(rows)
    ensures CountWithId(rows, id) <= 1
  {
    if rows != [] {
      var init := rows[..|rows| - 1];
      CountWithIdAtMostOne(init, id);
      if rows[|rows| - 1].id == id {
        assert !ContainsId(init, id);
      }
    }
  }

  /** `WHERE threadId = ?`, in table order. */
  function InThread(rows: seq<Email>, threadId: int): (r: seq<Email>)
    ensures forall e :: e in r <==> e in rows && e.threadId == threadId
    ensures |r| == CountInThread(rows, threadId)
  {
    if rows == [] then []
    else
      var init := rows[..|rows| - 1];
      var last := rows[|rows| - 1];
      assert rows == init + [last];
      InThread(init, threadId) + (if last.threadId == threadId then [last] else [])
  }

  /** `ORDER BY date ASC` */
  ghost predicate DateOrdered(s: seq<Email>) {
    forall i, j :: 0 <= i < j < |s| ==> s[i].date <= s[j].date
  }

  function InsertByDate(e: Email, s: seq<Email>): (r: seq<Email>)
    requires DateOrdered(s)
    ensures DateOrdered(r)
    ensures multiset(r) == multiset(s) + multiset{e}
    ensures |r| > 0 && (r[0] == e || (|s| > 0 && r[0] == s[0]))
  {
    if s == [] || e.date < s[0].date then [e] + s
    else
      var rest := InsertByDate(e, s[1..]);
      assert s == [s[0]] + s[1..];
      assert s[0].date <= rest[0].date;
      [s[0]] + rest
  }

  /** One result the database may give for `ORDER BY date ASC` (it fixes the order of equal dates). */
  function SortByDate(s: seq<Email>): (r: seq<Email>)
    ensures DateOrdered(r)
    ensures multiset(r) == multiset(s)
  {
    if s == [] then []
    else
      assert s == s[..|s| - 1] + [s[|s| - 1]];
      InsertByDate(s[|s| - 1], SortByDate(s[..|s| - 1]))
  }
}
