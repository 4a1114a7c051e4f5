/**
 * Receiving one email: skip it when its id is already stored, otherwise
 * file it under the thread of its sanitized subject (creating that thread
 * when no thread has the subject) and insert one row.
 */
module Ingestion {
  import opened Wrappers
  import opened Emails
  import opened ThreadStore
  import opened EmailStore

  /** An email as it arrives from the mailbox. */
  datatype ReceivedEmail = ReceivedEmail(id: string, subject: string, textContent: string, date: int)

  /** The two tables the handler reads and writes. */
  datatype Tables = Tables(emails: seq<Email>, threads: seq<Thread>, autoIncrement: nat)

  ghost predicate TablesValid(s: Tables) {
    UniqueIds(s.emails) && TableValid(s.threads, s.autoIncrement)
  }

  /** No two threads share a subject. */
  ghost predicate DistinctSubjects(threads: seq<Thread>) {
    forall i, j :: 0 <= i < j < |threads| ==> threads[i].subject != threads[j].subject
  }

  /** The row the handler inserts: the columns it names, every other column NULL. */
  function StoredRow(m: ReceivedEmail, content: string, threadId: nat): Email {
    Email(m.id, m.subject, content, m.textContent, threadId, m.date, None, None, None, None)
  }

  /** The tables after the handler has received `m`. */
  function Ingest(s: Tables, m: ReceivedEmail, sanitize: string -> string, parse: string -> string): (r: Tables)
    requires TablesValid(s)
    ensures TablesValid(r)
    ensures ContainsId(r.emails, m.id)
    ensures ContainsId(s.emails, m.id) ==> r == s
    ensures !ContainsId(s.emails, m.id) ==>
      && |r.emails| == |s.emails| + 1
      && r.emails[..|s.emails|] == s.emails
      && var e := r.emails[|s.emails|];
         && e.id == m.id && e.subject == m.subject && e.date == m.date
         && e.originalContent == m.textContent && e.content == parse(m.textContent)
         && (exists i :: 0 <= i < |r.threads| && r.threads[i].id == e.threadId &&
               r.threads[i].subject == sanitize(m.subject))
    ensures |s.threads| <= |r.threads| <= |s.threads| + 1
    ensures r.threads[..|s.threads|] == s.threads
    ensures |r.threads| == |s.threads| + 1 <==>
      !ContainsId(s.emails, m.id) && FindId(s.threads, sanitize(m.subject)) == 0
    ensures !ContainsId(s.emails, m.id) && FindId(s.threads, sanitize(m.subject)) != 0 ==>
      r.emails[|s.emails|].threadId == FindId(s.threads, sanitize(m.subject))
  {
    if ContainsId(s.emails, m.id) then s
    else
      var subject := sanitize(m.subject);
      var content := parse(m.textContent);
      var found := FindId(s.threads, subject);
      var r :=
        if found != 0 then
          Tables(s.emails + [StoredRow(m, content, found)], s.threads, s.autoIncrement)
        else
          Tables(s.emails + [StoredRow(m, content, s.autoIncrement)],
                 s.threads + [Thread(s.autoIncrement, subject)],
                 s.autoIncrement + 1);
      assert r.emails[|s.emails|].id == m.id;
      assert r.threads[..|s.threads|] == s.threads;
      assert found == 0 ==> r.threads[|s.threads|] == Thread(s.autoIncrement, subject);
      r
  }

  /** Receiving the same email twice leaves the tables as receiving it once. */
  lemma IngestIdempotent(s: Tables, m: ReceivedEmail, sanitize: string -> string, parse: string -> string)
    requires TablesValid(s)
    ensures Ingest(Ingest(s, m, sanitize, parse), m, sanitize, parse) == Ingest(s, m, sanitize, parse)
  {
  }

  /** After receiving an email exactly one row carries its id. */
  lemma {:induction false} IngestOneRowPerId(s: Tables, m: ReceivedEmail, sanitize: string -> string, parse: string -> string)
    requires TablesValid(s)
    ensures CountWithId(Ingest(s, m, sanitize, parse).emails, m.id) == 1
  {
    var r := Ingest(s, m, sanitize, parse);
    CountWithIdAtMostOne(r.emails, m.id);
    if !ContainsId(s.emails, m.id) {
      assert r.emails == s.emails + [r.emails[|s.emails|]];
      assert r.emails[..|r.emails| - 1] == s.emails;
    }
  }

  /** The handler never files two threads under one subject. */
  lemma IngestKeepsSubjectsDistinct(s: Tables, m: ReceivedEmail, sanitize: string -> string, parse: string -> string)
    requires TablesValid(s) && DistinctSubjects(s.threads)
    ensures DistinctSubjects(Ingest(s, m, sanitize, parse).threads)
  {
    var r := Ingest(s, m, sanitize, parse);
    var subject := sanitize(m.subject);
    if !ContainsId(s.emails, m.id) && FindId(s.threads, subject) == 0 {
      assert r.threads == s.threads + [Thread(s.autoIncrement, subject)];
      assert r.threads[|s.threads|].subject == subject;
      assert forall i :: 0 <= i < |s.threads| ==> s.threads[i].subject != subject;
      forall i, j | 0 <= i < j < |r.threads| ensures r.threads[i].subject != r.threads[j].subject {
        assert r.threads[i] == s.threads[i];
        if j < |s.threads| {
          assert r.threads[j] == s.threads[j];
        }
      }
    } else {
      assert r.threads == s.threads;
    }
  }

  /**
   * After a new email is filed, looking up its sanitized subject finds the
   * thread it was filed under.
   */
  lemma {:induction false} IngestFindsOwnThread(s: Tables, m: ReceivedEmail, sanitize: string -> string, parse: string -> string)
    requires TablesValid(s) && DistinctSubjects(s.threads) && !ContainsId(s.emails, m.id)
    ensures var r := Ingest(s, m, sanitize, parse);
      |r.emails| == |s.emails| + 1 && FindId(r.threads, sanitize(m.subject)) == r.emails[|s.emails|].threadId
  {
    var r := Ingest(s, m, sanitize, parse);
    var subject := sanitize(m.subject);
    IngestKeepsSubjectsDistinct(s, m, sanitize, parse);
    var i1 :| 0 <= i1 < |r.threads| && r.threads[i1].id == r.emails[|s.emails|].threadId &&
      r.threads[i1].subject == subject;
    var found := FindId(r.threads, subject);
    var i2 :| 0 <= i2 < |r.threads| && r.threads[i2].id == found && r.threads[i2].subject == subject;
    assert i1 == i2;
  }

  /**
   * Two new emails whose subjects sanitize alike, received one after the
   * other, land in the same thread.
   */
  lemma {:induction false} SameSubjectSameThread(
    s: Tables, m1: ReceivedEmail, m2: ReceivedEmail, sanitize: string -> string, parse: string -> string)
    requires TablesValid(s) && DistinctSubjects(s.threads)
    requires !ContainsId(s.emails, m1.id) && m2.id != m1.id && !ContainsId(s.emails, m2.id)
    requires sanitize(m1.subject) == sanitize(m2.subject)
    ensures var s1 := Ingest(s, m1, sanitize, parse);
      var s2 := Ingest(s1, m2, sanitize, parse);
      |s2.emails| == |s.emails| + 2 &&
      s2.emails[|s.emails| + 1].threadId == s2.emails[|s.emails|].threadId &&
      |s2.threads| <= |s.threads| + 1
  {
    var s1 := Ingest(s, m1, sanitize, parse);
    IngestFindsOwnThread(s, m1, sanitize, parse);
    assert forall i :: 0 <= i < |s.emails| ==> s1.emails[i] == s1.emails[..|s.emails|][i];
    assert !ContainsId(s1.emails, m2.id);
    var s2 := Ingest(s1, m2, sanitize, parse);
    assert s2.emails[..|s1.emails|] == s1.emails;
    assert s2.emails[|s.emails|] == s1.emails[|s.emails|];
  }

  class ReceiveEmailHandler {
    const threadRepository: DbThreadRepository
    const emailRepository: EmailRepository
    /** The subject parser's `sanitize`. */
    const sanitize: string -> string
    /** The content parser's `parse`. */
    const parse: string -> string

    constructor (threadRepository: DbThreadRepository, emailRepository: EmailRepository,
                 sanitize: string -> string, parse: string -> string)
      ensures this.threadRepository == threadRepository && this.emailRepository == emailRepository
      ensures this.sanitize == sanitize && this.parse == parse
    {
      this.threadRepository := threadRepository;
      this.emailRepository := emailRepository;
      this.sanitize := sanitize;
      this.parse := parse;
    }

    ghost predicate Valid()
      reads this, threadRepository, emailRepository
    {
      threadRepository.Valid() && emailRepository.Valid()
    }

    ghost function State(): Tables
      reads this, threadRepository, emailRepository
    {
      Tables(emailRepository.rows, threadRepository.rows, threadRepository.autoIncrement)
    }

    /** Receives one email. */
    method Invoke(email: ReceivedEmail)
      requires Valid()
      modifies threadRepository, emailRepository
      ensures Valid()
      ensures State() == Ingest(old(State()), email, sanitize, parse)
    {
      // An email whose id is stored is skipped.
      if emailRepository.Contains(email.id) {
        return;
      }

      var threadSubject := sanitize(email.subject);
      var content := parse(email.textContent);

      var threadId := threadRepository.FindBySubject(threadSubject);
      if threadId == 0 {
        // No thread has the subject yet: create one.
        threadId := threadRepository.Create(threadSubject);
      }

      var outcome := emailRepository.Add(StoredRow(email, content, threadId));
      assert outcome == Inserted;
    }
  }
}
