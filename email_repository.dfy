/**
 * The email repository: an in-memory `emails` table with the operations the
 * archive performs on it.
 */
module EmailStore {
  import opened Emails
  import opened ThreadView

  /** A row insert either succeeds or violates the primary key on `id`. */
  datatype Outcome = Inserted | DuplicateId

  /** What `getThreadView` works on and builds: the fetched rows, their index, and the links. */
  datatype View = View(fetched: seq<Email>, index: Index, links: Links)

  /** `UPDATE emails SET content = ? WHERE id = ?` */
  function WithContent(rows: seq<Email>, id: string, content: string): (r: seq<Email>)
    ensures |r| == |rows|
    ensures forall i :: 0 <= i < |rows| ==> r[i].(content := rows[i].content) == rows[i]
    ensures forall i :: 0 <= i < |rows| && rows[i].id != id ==> r[i] == rows[i]
    ensures forall i :: 0 <= i < |rows| && rows[i].id == id ==> r[i].content == content
  {
    seq(|rows|, i requires 0 <= i < |rows| =>
      if rows[i].id == id then rows[i].(content := content) else rows[i])
  }

  class EmailRepository {
    /** The rows of the `emails` table, in table order. */
    var rows: seq<Email>

    ghost predicate Valid()
      reads this
    {
      UniqueIds(rows)
    }

    constructor ()
      ensures Valid() && rows == []
    {
      rows := [];
    }

    /** Whether an email with this id is stored. */
    function Contains(emailId: string): (r: bool)
      reads this
      ensures r <==> exists i :: 0 <= i < |rows| && rows[i].id == emailId
    {
      ContainsId(rows, emailId)
    }

    /** The number of stored emails of a thread. */
    function GetThreadCount(threadId: int): (n: nat)
      reads this
      ensures n == |set i | 0 <= i < |rows| && rows[i].threadId == threadId|
    {
      CountInThread(rows, threadId)
    }

    /** Inserts a row; an id that is already stored violates the primary key and changes nothing. */
    method Add(email: Email) returns (r: Outcome)
      requires Valid()
      modifies this
      ensures Valid()
      ensures r == if old(Contains(email.id)) then DuplicateId else Inserted
      ensures rows == if r == Inserted then old(rows) + [email] else old(rows)
      ensures Contains(email.id)
    {
      if Contains(email.id) {
        r := DuplicateId;
      } else {
        rows := rows + [email];
        r := Inserted;
      }
    }

    /** Overwrites the rendered content of the row with the email's id, and nothing else. */
    method UpdateContent(email: Email)
      requires Valid()
      modifies this
      ensures Valid()
      ensures rows == WithContent(old(rows), email.id, email.content)
    {
      rows := WithContent(rows, email.id, email.content);
    }

    /**
     * The threaded view of a thread: the thread's rows in date order, indexed
     * by key, each linked to the item it replies to.
     */
    method GetThreadView(threadId: int) returns (view: View)
      ensures DateOrdered(view.fetched)
      ensures multiset(view.fetched) == multiset(InThread(rows, threadId))
      ensures |view.fetched| == GetThreadCount(threadId)
      ensures view.index == IndexByKey(view.fetched)
      ensures view.links == Link(view.index)
    {
      var thread := InThread(rows, threadId);
      var fetched := SortByDate(thread);
      assert |fetched| == |multiset(fetched)| == |multiset(thread)| == |thread|;
      var index := IndexEmails(fetched);
      var links := LinkReplies(index);
      view := View(fetched, index, links);
    }
  }

  /** The first loop of the thread view: index the fetched emails by key. */
  method IndexEmails(fetched: seq<Email>) returns (index: Index)
    ensures index == IndexByKey(fetched)
  {
    var keys: seq<string> := [];
    var items: seq<Email> := [];
    for i := 0 to |fetched|
      invariant Index(keys, items) == IndexByKey(fetched[..i])
    {
      var email := fetched[i];
      var id := Key(email);
      assert fetched[..i + 1] == fetched[..i] + [email];
      if id in keys {
        items := items[PositionOf(keys, id) := email];
      } else {
        keys := keys + [id];
        items := items + [email];
      }
    }
    assert fetched[..|fetched|] == fetched;
    index := Index(keys, items);
  }

  /** The second loop of the thread view: attach each item to the one it replies to, or make it a root. */
  method LinkReplies(index: Index) returns (links: Links)
    requires WellFormed(index)
    ensures links == Link(index)
  {
    var roots: seq<nat> := [];
    var replies: seq<seq<nat>> := seq(|index.items|, _ => []);
    for i := 0 to |index.items|
      invariant Links(roots, replies) == LinkFirst(index, i)
    {
      var replyId := index.items[i].inReplyTo;
      if Truthy(replyId) && replyId.value in index.keys {
        var p := PositionOf(index.keys, replyId.value);
        replies := replies[p := replies[p] + [i]];
      } else {
        roots := roots + [i];
      }
    }
    links := Links(roots, replies);
  }
}
